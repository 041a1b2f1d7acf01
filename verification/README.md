# A DNS filtering dataplane, modelled and proved

The dataplane answers DNS queries over UDP. A query is parsed, its name is
decided by the active policy snapshot, and an allowed one is answered from a
cache or sent to an upstream server under a fresh transaction id; the response
is matched to the query, kept in the cache under the policy generation of the
moment, and sent on. Meanwhile a control plane publishes new policies.

This project models the components that hold state, each in the form it has in
C++, proves each equal to a simple description, and composes them:

| file | models |
|---|---|
| `AhoCorasick.dfy` | the substring matcher: node array, failure links built breadth first, search |
| `Cache.dfy` | the cache: table and recency list tied by stored iterators, as one list in order of use |
| `Names.dfy`, `SuffixTrie.dfy` | labels of names, and the tree of labels in reverse |
| `Wire.dfy`, `Parser.dfy`, `Encoder.dfy`, `Responses.dfy` | headers, names with compression pointers, queries, responses |
| `Forwarder.dfy` | the pending table, with a ledger of what became of each query |
| `Policy.dfy` | snapshots and their publication |
| `Ipc.dfy`, `PolicyMessage.dfy`, `PolicyArrival.dfy` | the policy message: its reader, from printer to reader, and what one read of it leaves |
| `Machine.dfy`, `EventLoop.dfy` | the whole as steps of one writer and one loop in any order, and the loop that takes them |
| `Matchers.dfy`, `Text.dfy`, `Decimal.dfy` | the two matchers compared; lower case; decimal numbers |

The form is the same throughout. A class has the fields of its C++ counterpart
and methods with its loops; a predicate `Valid` ties the fields to a value (the
insertions so far, a list of items, a ledger); each method says what it makes
of that value; and lemmas say what the value means, over all inputs, histories
or runs. `Machine.Step` has one step for every atomic load and store and for
every datagram, so a run is any interleaving.

## Where the code differs from its documentation

The model follows the code.

- Only the first compression pointer of a name must lead backward
  (dataplane/src/dns/parser.cpp:50), although the comment above says every
  pointer does; `Parser.SecondPointerMayGoForward` is a name whose second
  pointer leads forward. The walk ends because at most eight are followed.
- A label may hold the octet of a dot, so different octets can decode to one
  name (`Parser.DotOctetIsAmbiguous`).
- The flags 0x8180 of an error response already have RD set
  (dataplane/src/dns/response.cpp:19), whatever the query had; section 4.1.1 of
  RFC 1035 has it copied. The sinkhole's 0x8580 is the same.
- A response is cached under class 1 whatever the class of the query
  (dataplane/src/main.cpp:228-230), and a response's class is not compared with
  the query's (dataplane/src/dns/forwarder.cpp:147). What is proved of stored
  and accepted responses is about name and type.
- A response is tagged with the generation at its arrival
  (dataplane/src/main.cpp:224-230), not at its query. An outdated entry is
  erased (dataplane/src/engine/cache.cpp:32-36); docs/decisions/ADR-004 has it
  decided anew and tagged again.
- Old entries of the pending table are dropped by `forward_query` only, past
  2000 ms (dataplane/src/dns/forwarder.cpp:69-77). `validate_response` looks at
  no age; docs/decisions/ADR-001 has a limit of 1500 ms there.
- The seed policy of generation 1 is refused, since a candidate must exceed the
  generation 1 the manager starts with (dataplane/src/main.cpp:113-119,
  dataplane/src/runtime/atomic_snapshot.cpp:35). The model starts from the
  manager's own empty snapshot, and the policy messages are its one writer.
- The cache needs room for one entry: with none, the back of an empty list would
  be taken (dataplane/src/engine/cache.cpp:64-65).
- Reading a policy message is a search for quoted names, not JSON parsing: a
  listed string that equals the name of a later or omitted field is taken for
  it (`PolicyMessage.FieldFound`, `PolicyMessage.FieldNameMisleads`).
- The socket is read once, 8191 octets (dataplane/src/runtime/ipc_server.cpp:171-175).
  A longer policy that loses more than its last brace and line end does not
  arrive as sent (`PolicyArrival.SentPolicyArrives`), yet can be accepted,
  without the lists that were cut (`PolicyArrival.CutPolicyMisleads`).

## Model

| member | source | states |
|---|---|---|
| AhoCorasickMatcher.AhoCorasick.constructor | dataplane/src/engine/aho_corasick.cpp:7-9 | a matcher without patterns, not built |
| AhoCorasickMatcher.AhoCorasick.Insert | dataplane/src/engine/aho_corasick.cpp:11-31 | the insertion is recorded, the trie stays sound for the patterns so far, and a non-empty pattern asks for a new build |
| AhoCorasickMatcher.AhoCorasick.Build | dataplane/src/engine/aho_corasick.cpp:33-71 | afterwards every failure link spells the longest proper suffix in the trie, and match flag and id are those of the shortest pattern that is a suffix; also after earlier builds |
| AhoCorasickMatcher.AhoCorasick.FailureTarget | dataplane/src/engine/aho_corasick.cpp:48-64 | the failure walk ends, never at the child itself, and settles the child |
| AhoCorasickMatcher.AhoCorasick.Search | dataplane/src/engine/aho_corasick.cpp:73-100 | true exactly when built and some pattern is a substring, ignoring case; the id is that of the shortest pattern ending where any ends first |
| AhoCorasickMatcher.PatternsAreLastInsertions | dataplane/src/engine/aho_corasick.cpp:28-30 | the patterns are the lowered non-empty strings inserted, each with the id of its last insertion |
| AhoCorasickMatcher.FirstOccurrenceIsUnique | dataplane/src/engine/aho_corasick.cpp:91-96 | a text has one earliest end and one shortest pattern there, so one id to report |
| AhoCorasickMatcher.LongestSuffixIsLongest | dataplane/src/engine/aho_corasick.cpp:42-58 | the suffix a link is to spell is the longest among the words |
| AhoCorasickMatcher.LongestSuffixExtends | dataplane/src/engine/aho_corasick.cpp:80-89 | reading one more character needs only the longest suffix known so far |
| AhoCorasickMatcher.ShortestMatchMeaning | dataplane/src/engine/aho_corasick.cpp:60-64 | the match to be inherited is the shortest suffix that is a pattern, and there is none exactly when no suffix is one |
| AhoCorasickMatcher.ShortestMatchOfLongestSuffix | dataplane/src/engine/aho_corasick.cpp:60-64 | a text and its longest suffix in the trie end in the same shortest pattern |
| AhoCorasickMatcher.FollowLink | dataplane/src/engine/aho_corasick.cpp:49-51 | following a link keeps the suffix looked for and strictly shortens the word, so the walk ends |
| AhoCorasickMatcher.WalkEnds | dataplane/src/engine/aho_corasick.cpp:84-89 | where the walk stops, the edge, or the root, spells the longest suffix |
| AhoCorasickMatcher.PushChild | dataplane/src/engine/aho_corasick.cpp:66-66 | a child is not yet queued when it is pushed, and pushing keeps the queue in order of depth |
| AhoCorasickMatcher.PopFront | dataplane/src/engine/aho_corasick.cpp:43-45 | taking the front out keeps the order, with exactly its children to come |
| AhoCorasickMatcher.EmptyQueueFoundAll | dataplane/src/engine/aho_corasick.cpp:43-43 | when the queue is empty every node has been visited |
| AhoCorasickMatcher.ShallowIsFound | dataplane/src/engine/aho_corasick.cpp:49-51 | every node as shallow as the current one has been queued, so the walk meets settled nodes only |
| AhoCorasickMatcher.SettleByLink | dataplane/src/engine/aho_corasick.cpp:53-64 | with the right link, inheriting flag and id gives the node the shortest pattern that ends it |
| AhoCorasickMatcher.EndOfWalk | dataplane/src/engine/aho_corasick.cpp:53-58 | the target found is never the child itself: the guard against that never fires |
| AhoCorasickMatcher.StopOrGoOn | dataplane/src/engine/aho_corasick.cpp:91-96 | the flag of the node reached decides whether a pattern ends here, and its id is then the one to report |
| Cache.MakeKeyInjective | dataplane/src/engine/cache.cpp:8-10 | keys are equal exactly for equal name, type and class, even with colons in names |
| Cache.DnsCache.constructor | dataplane/src/engine/cache.cpp:6-6 | an empty cache |
| Cache.DnsCache.Find | dataplane/src/engine/cache.cpp:12-42 | table and list refine the list in order of use: an entry is returned exactly when its time is not out and its generation is the one asked for; it moves to the front, any other of that key is dropped |
| Cache.DnsCache.Insert | dataplane/src/engine/cache.cpp:44-80 | the entry comes to the front with its clamped time to live; into a full cache the last one is dropped for a new key |
| Cache.DnsCache.Size | dataplane/src/engine/cache.cpp:82-85 | the size of the table is the length of the list, at most the capacity |
| Cache.DnsCache.Clear | dataplane/src/engine/cache.cpp:87-91 | nothing is left |
| Cache.IteratorDenotesKey | dataplane/src/engine/cache.cpp:77-79 | each stored iterator denotes the cell of its own key |
| Cache.EraseByIterator | dataplane/src/engine/cache.cpp:26-27 | erasing by the stored iterator removes the key's own item from the order and no other |
| Cache.EvictLast | dataplane/src/engine/cache.cpp:64-68 | dropping the back of the list and its key keeps both in step |
| Cache.StepFacts | dataplane/src/engine/cache.cpp:12-80 | what one operation does to every key: the touched one in front, the last one dropped from a full cache, the others unchanged |
| Cache.RunKeepsOrder | dataplane/src/engine/cache.cpp:12-80 | after any history the keys are distinct and never more than the capacity |
| Cache.FrontIsSince | dataplane/src/engine/cache.cpp:39-59 | after any history the keys in front of a key have all been inserted or hit since it was |
| Cache.SurvivesUntilCrowdedOut | dataplane/src/engine/cache.cpp:63-68 | a key leaves only by a lookup of its own that finds it expired or outdated, or when at least as many distinct other keys as the capacity have been inserted or hit since its last use |
| Cache.ItemsAreLastInserts | dataplane/src/engine/cache.cpp:54-61 | whatever is stored is what the last insertion of its key stored |
| Cache.HitServesLastInsert | dataplane/src/engine/cache.cpp:22-41 | a hit serves the response of the last insertion, before its time is out and under its generation only |
| Cache.UndisturbedIsServed | dataplane/src/engine/cache.cpp:12-71 | an entry looked up only in time, and never crowded out, is still stored |
| Cache.LookupIsExact | dataplane/src/engine/cache.cpp:22-60 | and a lookup returns its response exactly before its seconds are out, at least 1 and at most 86400, and under its generation |
| Cache.LastInsertIsReturned | dataplane/src/engine/cache.cpp:22-68 | so it is whenever fewer other keys than the capacity have been named since its insertion |
| SuffixTrie.SplitLabelsReversed | dataplane/src/engine/suffix_trie.cpp:10-37 | the labels of a name in lower case, last first, empty ones left out |
| SuffixTrie.DomainSuffixTrie.constructor | dataplane/src/engine/suffix_trie.cpp:7-7 | a trie without rules |
| SuffixTrie.DomainSuffixTrie.Insert | dataplane/src/engine/suffix_trie.cpp:39-61 | the tree carries the rules inserted so far, and its size is their number |
| SuffixTrie.DomainSuffixTrie.Matches | dataplane/src/engine/suffix_trie.cpp:63-85 | found and id are those of the shortest rule among the tails of the labels |
| SuffixTrie.LookupIsSuffixMatch | dataplane/src/engine/suffix_trie.cpp:63-85 | matched exactly when, ignoring case and empty labels, the name is a rule or ends with a dot and a rule; the id is that of the first insertion of the rule with the fewest labels |
| SuffixTrie.CoversWellFormed | dataplane/src/engine/suffix_trie.cpp:63-85 | without empty labels: the lowered name equals the lowered rule or ends with a dot and it |
| SuffixTrie.RulesAreFirstInsertions | dataplane/src/engine/suffix_trie.cpp:56-60 | each rule has the id of its first insertion |
| SuffixTrie.RulesAreNormalForms | dataplane/src/engine/suffix_trie.cpp:56-60 | the number of rules is the number of distinct normalized non-empty names inserted |
| Names.TailIsUnder | dataplane/src/engine/suffix_trie.cpp:67-82 | labels end in other labels exactly when the dotted name is the other or ends with a dot and it |
| Names.NormalizedDecidesLabels | dataplane/src/engine/suffix_trie.cpp:18-32 | names have the same labels exactly when they have the same normal form |
| Matchers.TrieMatchIsFound | dataplane/src/engine/suffix_trie.cpp:63-85 | with the same rules and no empty labels, what the trie matches the substring matcher finds |
| Matchers.FoundIsNotTrieMatch | dataplane/src/engine/aho_corasick.cpp:73-100 | not conversely: a pattern within a label |
| Wire.BitFields | dataplane/include/dns/protocol.h:93-110 | what the model asks of the two flags octets, response, opcode, RD and code, is what the masks ask of the word |
| Wire.LengthBits | dataplane/src/dns/parser.cpp:26-66 | the masks of a length octet are the comparisons the model uses |
| Wire.ShiftedOctets | dataplane/src/dns/parser.cpp:43-43 | octets put together by shift and or, as words and pointers are, give the sums the model uses |
| Wire.SplitWord | dataplane/src/dns/response.cpp:15-16 | the octets written by shift and mask are those a word is put together from |
| Text.LettersLowered | dataplane/src/dns/parser.cpp:86-86 | a capital becomes its small letter and no other character changes |
| Parser.DecodeName | dataplane/src/dns/parser.cpp:6-100 | the loop computes the recursive reading, stays within the buffer, takes at most 136 turns whatever its size, and returns at most 253 characters |
| Parser.CopyLabel | dataplane/src/dns/parser.cpp:77-87 | a label of printable octets is appended in lower case after a dot, another is refused |
| Parser.DecodeIsReading | dataplane/src/dns/parser.cpp:6-100 | a name is returned exactly when section 4.1.4 of RFC 1035 spells it with at most eight pointers, the first strictly backward, printable octets and at most 253 characters; and with the octets it takes |
| Parser.ReadingUnique | dataplane/src/dns/parser.cpp:17-97 | octets are spelt in one way only |
| Parser.TargetBits | dataplane/src/dns/parser.cpp:43-43 | the offset of a pointer is what its mask, shift and or give |
| Parser.SecondPointerMayGoForward | dataplane/src/dns/parser.cpp:49-52 | a name whose second pointer leads forward is accepted |
| Parser.DotOctetIsAmbiguous | dataplane/src/dns/parser.cpp:81-87 | two wire names with one decoded name |
| Parser.ParsePacket | dataplane/src/dns/parser.cpp:102-150 | the checks in their order over the decoding loop, as the specification parser |
| Parser.AcceptedExactly | dataplane/src/dns/parser.cpp:102-149 | a packet is accepted exactly when it has 12 to 4096 octets, opcode 0, one question, and a name read at octet 12 with four octets after it |
| Parser.AcceptedGives | dataplane/src/dns/parser.cpp:119-149 | and gives the id, the name read, and the type and the class of those four octets |
| Parser.RefusedWith | dataplane/src/dns/parser.cpp:103-133 | the error of a refused packet is that of the first check that fails |
| Parser.Parse | dataplane/src/dns/parser.cpp:131-149 | the question of an accepted packet lies within its octets |
| Encoder.MakeDnsQuery | offline/benchmarks/runner.py:17-35 | the loop writes header, labels, end and tail, or fails where a label cannot be written |
| Encoder.WritableIsExact | offline/benchmarks/runner.py:26-28 | which is so exactly for a label of more than 255 characters or with one that is not ASCII |
| Encoder.DotsAreStripped | offline/benchmarks/runner.py:26-26 | the dots around a name are stripped and nothing else |
| Encoder.QueryRoundTrip | offline/benchmarks/runner.py:17-35 | parsing gives back the lowered name and class 1 exactly when the labels are 1 to 63 printable characters and the name 1 to 253; then also id, type and every octet consumed |
| Encoder.NameRoundTrip | dataplane/src/dns/parser.cpp:102-150 | for an accepted question without pointers, encoding its name gives its octets in lower case exactly when it has a label and no label holds a dot |
| Encoder.EmptyLabelSpoils | offline/benchmarks/runner.py:26-29 | a name with an empty label never comes back with class 1 |
| Responses.SameOctetsSameName | dataplane/src/dns/parser.cpp:6-100 | a name depends on the octets visited in reading it and on no others |
| Responses.BuildErrorResponse | dataplane/src/dns/response.cpp:7-38 | the header written and the question copied, in place, are the response |
| Responses.ErrorFlagsMask | dataplane/src/dns/response.cpp:19-22 | the flags word is 0x8180 and the code, with RD set either way |
| Responses.ErrorResponseParses | dataplane/src/dns/response.cpp:7-38 | for a name that finds its header octets unchanged, it parses to the same question and id, flags 0x8180 with the code (so RD whatever the query had), one question and nothing else, exactly when the name is read from header and question only; it is refused otherwise |
| Responses.LeavingIsLost | dataplane/src/dns/response.cpp:32-35 | octets that agree with a name as far as they go spell no name if the name goes on past them |
| Responses.PlainStays | dataplane/src/dns/parser.cpp:6-100 | a name without pointer is read from its question only, so it finds its octets in every reply |
| Responses.PlainErrorResponseParses | dataplane/src/dns/response.cpp:7-38 | so the error response parses for every accepted query whose name has no pointer |
| Responses.HeaderPointerIsLost | dataplane/src/dns/response.cpp:19-30 | not for every accepted query: one whose name is read from header octets that the response overwrites |
| Responses.NameBeyondIsLost | dataplane/src/dns/response.cpp:32-35 | and one whose name is read past its question, which the response does not copy |
| Responses.HeaderMayChange | dataplane/src/dns/response.cpp:19-30 | overwritten octets need not spoil the name: one that is read alike from the changed answer count |
| Responses.BuildSinkholeResponse | dataplane/src/dns/response.cpp:40-90 | header, question and answer record, in place, are the response |
| Responses.SinkholeAnswersQuestion | dataplane/src/dns/response.cpp:40-90 | for a query whose name stays within header and question and finds its header octets unchanged, it parses to the same question, and the answer's name decodes to the question's name and 2 octets exactly when that name uses at most seven pointers |
| Responses.PlainSinkholeAnswersQuestion | dataplane/src/dns/response.cpp:40-90 | which is so for every accepted query whose name has no pointer |
| Responses.SinkholeRecordReads | dataplane/src/dns/response.cpp:74-87 | the rest of the record reads as type A, class IN, the time to live and the four octets of the address |
| Responses.TranslateTxid | dataplane/src/dns/response.cpp:92-99 | two octets or more get the id, fewer stay |
| Responses.IdRewriteParses | dataplane/src/dns/response.cpp:92-99 | the rewrite changes the id and nothing else that is parsed, where the id octets the name is read from, if any, are those of the new id |
| Responses.IdPointerIsLost | dataplane/src/dns/response.cpp:92-99 | otherwise it may be lost: an accepted packet that is refused under another id |
| Responses.IdMayChange | dataplane/src/dns/response.cpp:92-99 | or not: a name read alike under another id, which only changes the case of its letter |
| Responses.PlainIdRewriteParses | dataplane/src/dns/response.cpp:92-99 | in particular where the name has no pointer |
| Forwarder.UpstreamForwarder.constructor | dataplane/src/dns/forwarder.cpp:10-43 | an open socket and an empty table |
| Forwarder.UpstreamForwarder.GenerateUniqueTxid | dataplane/src/dns/forwarder.cpp:45-55 | some free non-zero id |
| Forwarder.UpstreamForwarder.PrunePending | dataplane/src/dns/forwarder.cpp:69-77 | exactly the entries less than 2001 ms old stay |
| Forwarder.UpstreamForwarder.ForwardQuery | dataplane/src/dns/forwarder.cpp:57-109 | pruning, refusal where 2048 entries are left, entry under a fresh id, withdrawal if sending fails, and the datagram with the id in place |
| Forwarder.UpstreamForwarder.ValidateResponse | dataplane/src/dns/forwarder.cpp:111-152 | accepted exactly if it is a response from upstream with a pending id that parses with the name and type of its entry, which is then returned; a response from upstream with a pending id consumes its entry either way |
| Forwarder.FreeIdExists | dataplane/src/dns/forwarder.cpp:50-54 | with at most 2048 taken an id is free, so the drawing can end |
| Forwarder.ForwardKeepsInv | dataplane/src/dns/forwarder.cpp:57-109 | pending ids stay distinct, non-zero and at most 2048, each tied to its own forward |
| Forwarder.ResponseKeepsInv | dataplane/src/dns/forwarder.cpp:111-152 | the same, and accepted responses stay tied to different consumed forwards |
| Forwarder.Conservation | dataplane/src/dns/forwarder.cpp:45-138 | successful forwards are the pending, the consumed and the pruned ones, each counted once |
| Forwarder.NoOldEntryAfterForward | dataplane/src/dns/forwarder.cpp:69-77 | after a call past the socket check no entry is older than 2000 ms |
| Forwarder.ForwardIsExact | dataplane/src/dns/forwarder.cpp:57-109 | an entry is still there, unchanged, after such a call exactly when it is less than 2001 ms old; the query is entered exactly when fewer than 2048 of these are left and it could be sent |
| Forwarder.ResponseIsExact | dataplane/src/dns/forwarder.cpp:111-152 | the history of accepted responses grows exactly by the answers to pending entries, and only a datagram that calls for an entry takes it out |
| Forwarder.ReachableInv | dataplane/src/dns/forwarder.cpp:57-152 | the invariant holds after every sequence of calls |
| Forwarder.AtMostOneAnswer | dataplane/src/dns/forwarder.cpp:111-152 | in every run accepted responses belong one to one to earlier forwards, with that forward's client, name and type |
| Policies.PolicySnapshot.constructor | dataplane/include/runtime/atomic_snapshot.h:14-19 | a snapshot without rules |
| Policies.PolicySnapshot.Decide | dataplane/include/runtime/atomic_snapshot.h:22-43 | the snapshot's trie and sets decide as their contents do |
| Policies.EvaluateMeaning | dataplane/include/runtime/atomic_snapshot.h:22-43 | allowed exactly when on the allowlist, or neither blocked by name nor covered by a suffix rule; else NXDOMAIN, with the id of the covering rule reported |
| Policies.SnapshotManager.constructor | dataplane/src/runtime/atomic_snapshot.cpp:10-16 | the bootstrap snapshot, at generation 1 |
| Policies.SnapshotManager.ApplyCandidate | dataplane/src/runtime/atomic_snapshot.cpp:27-56 | accepted exactly when its generation exceeds the counter and it has a version hash; a refused candidate changes neither cell |
| Ipc.Received | dataplane/src/runtime/ipc_server.cpp:171-175 | what is handed on is a prefix of the message, at most one read of 8191 octets |
| Ipc.FindMeaning | dataplane/src/runtime/ipc_server.cpp:66-66 | the search finds the first place and misses none |
| Ipc.ExtractJsonStrings | dataplane/src/runtime/ipc_server.cpp:64-85 | the loop gathers the quoted strings between the brackets after the key |
| Ipc.BuildCandidate | dataplane/src/runtime/ipc_server.cpp:119-140 | the candidate holds what the message says, its suffixes numbered from 1 |
| Ipc.ApplyPolicy | dataplane/src/runtime/ipc_server.cpp:119-144 | the policy of an acceptable message becomes the active one, any other message changes nothing |
| PolicyMessage.FieldFound | dataplane/src/runtime/ipc_server.cpp:66-98 | in a printed request the search for a field name ends in a listed string exactly when a string before that field, or any if the field was omitted, is that name; otherwise it finds the field, or nothing if it was omitted |
| PolicyMessage.FieldRecovered | controlplane/main.go:28-35 | a field so found is read back from the text; a list exactly when none of its strings holds a closing bracket |
| PolicyMessage.ReadUnbracketed | dataplane/src/runtime/ipc_server.cpp:73-83 | no list read from any message holds a closing bracket |
| PolicyMessage.NamelessIsFindable | controlplane/main.go:28-35 | in a request none of whose strings is a field name every field is found |
| PolicyMessage.RequestRoundTrip | dataplane/src/runtime/ipc_server.cpp:119-140 | where every field is found and no list holds a closing bracket, the candidate built from the text is the policy requested |
| PolicyArrival.SentPolicyArrives | dataplane/src/runtime/ipc_server.cpp:171-175 | a policy sent arrives as sent exactly when its text is at most two characters longer than one read; without a version hash it is refused however much arrives |
| PolicyArrival.SentPolicyDecides | dataplane/include/runtime/atomic_snapshot.h:22-43 | a policy that arrives decides every name as the reference does over the requested lists; the number it reports is that of the covering suffix with the fewest labels, the first listed of its name |
| PolicyArrival.CutArrives | dataplane/src/runtime/ipc_server.cpp:119-140 | of a message cut anywhere: it stands for the policy requested exactly when at most its brace and line end are lost |
| PolicyArrival.CutMessageMeans | dataplane/src/runtime/ipc_server.cpp:119-140 | of a message cut anywhere each list is read whole or as empty, as its closing bracket is left or not; command, generation and version hash are as sent if the cut is not before the lists |
| PolicyArrival.CutPolicyDecides | dataplane/include/runtime/atomic_snapshot.h:22-43 | and the policy it stands for decides as the reference does over the lists left |
| PolicyArrival.CutHeadIsRefused | dataplane/src/runtime/atomic_snapshot.cpp:40-43 | cut before its lists it has no version hash, so it is refused |
| PolicyArrival.CutListIsEmpty | dataplane/src/runtime/ipc_server.cpp:70-73 | of any text cut before the closing bracket of a list, that list reads as empty |
| PolicyArrival.CutPolicyMisleads | dataplane/src/runtime/ipc_server.cpp:171-175 | too long a policy whose last list is that of the exact names is accepted like the one sent, and allows names it was sent to block |
| PolicyArrival.SomePolicyIsCut | dataplane/src/runtime/ipc_server.cpp:171-175 | there is such a policy: accepted, without what it was sent to block |
| PolicyMessage.FieldNameMisleads | dataplane/src/runtime/ipc_server.cpp:64-72 | a name listed before the field it names can do harm: names to be blocked are allowed |
| PolicyMessage.FieldNameMayAgree | dataplane/src/runtime/ipc_server.cpp:64-72 | it need not: a search that ends in the wrong place and comes upon equal names |
| Machine.StepKeepsInv | dataplane/src/main.cpp:134-244 | every step of writer, loop and clock keeps the invariant: cells published in order, stored responses parse under their own keys, tags not ahead, ledger in order |
| Machine.RunInv | dataplane/src/main.cpp:134-244 | so it holds in every state of every run |
| Machine.GenerationsNeverDecrease | dataplane/src/runtime/atomic_snapshot.cpp:49-53 | over a run neither cell's generation decreases |
| Machine.CellsAgree | dataplane/src/runtime/atomic_snapshot.cpp:49-53 | the cells are equal exactly outside the writer's two stores, between which the snapshot's is larger |
| Machine.CandidateIsAllOrNothing | dataplane/src/runtime/atomic_snapshot.cpp:27-56 | in any run a refused candidate changes no cell; after an accepted one, whatever loop and clock do between, the cells are the old ones or the new snapshot beside the old generation until the second store, and both new after it |
| Machine.LoopLoadedThen | dataplane/src/main.cpp:157-159 | what the loop works with it loaded from the cells at two steps, in that order, for the client whose datagram it read at the first |
| Machine.DisagreeingLoadsOverlap | dataplane/src/main.cpp:157-159 | if the two loads disagree, the writer was between its stores at the first or stored before the second |
| Machine.OnlyAllowedQueriesGoOn | dataplane/src/main.cpp:157-200 | in any interleaving a query reaches cache or forwarder only if the snapshot active at its load lets its name on |
| Machine.QueryIsServed | dataplane/src/main.cpp:157-206 | every query acted on is served for the client that sent it, under the policy and generation it loaded: NXDOMAIN exactly if blocked, else the sinkhole exactly for its name, else a stored response exactly if there is one, else sent on under a free id entered for that client exactly if table and socket allow, else SERVFAIL; only sending on adds a forward |
| Machine.QueryIsServedOnce | dataplane/src/main.cpp:141-211 | in any run every query accepted is in hand until it is acted on, and acted on only once |
| Machine.ServiceReadsBack | dataplane/src/main.cpp:157-206 | what is written reads back to its question, as an error, an answer under its name or the query under another id, where the name finds its octets, which a name without pointers always does |
| Machine.NoStaleAnswer | dataplane/src/engine/cache.cpp:31-36 | a stored response served has the tag the query loaded, so once the counter has passed a tag no later load is served it |
| Machine.TagsNeverAhead | dataplane/src/main.cpp:224-230 | in every state no tag exceeds the counter |
| Machine.HitAnswersQuestion | dataplane/src/main.cpp:189-197 | every hit is a response that parses with the asked name and type, for a query of class 1 |
| Machine.HitResponseParses | dataplane/src/main.cpp:189-197 | and where its name has no pointer it still does under the client's id |
| Machine.ConservationInRuns | dataplane/src/dns/forwarder.cpp:45-138 | in every state of every run no forward is lost or counted twice, and at most 2048 are pending |
| Machine.EntryStays | dataplane/src/dns/forwarder.cpp:57-138 | in any run a pending entry stays, unchanged, until a response from upstream with its id comes or a query is forwarded 2001 ms after it or later |
| Machine.EntryIsForwards | dataplane/src/main.cpp:200-200 | and it is that of its forward, which goes back to an earlier query of its client |
| Machine.AnswerStep | dataplane/src/main.cpp:213-240 | an answer to a pending entry is taken in hand for its client, any other datagram is dropped |
| Machine.AnswerIsSent | dataplane/src/main.cpp:220-238 | in any run an answer taken in hand stays there until it is sent to that client, under its id, and kept for sixty seconds under name, type, class 1 and a generation loaded since |
| Machine.ForwardsWereAsked | dataplane/src/main.cpp:141-200 | the forwards of a run go back, in order, to different earlier queries, each of the forward's client, for its name and type, which the policy then active let on |
| Machine.AcceptedWasDelivered | dataplane/src/main.cpp:213-222 | every accepted response came from upstream, after the query its forward goes back to |
| Machine.RunSendsInOrder | dataplane/src/main.cpp:213-244 | the responses sent are the accepted ones in their order, but for one in hand |
| Machine.EveryAnswerWasAsked | dataplane/src/main.cpp:134-244 | over a whole run the responses sent belong one to one to accepted ones and to different earlier queries; each came from upstream with the name and type asked and goes, under its own id, to the client whose query the policy let on |
| Machine.ResolvedGoesToItsClient | dataplane/src/main.cpp:220-238 | what is sent at the end of a turn is the latest accepted response, an earlier datagram from upstream; it goes to the client of the forward it answers under that client's id, and into the cache under that forward's name and type |
| Machine.CacheIsItsHistory | dataplane/src/main.cpp:189-230 | the cache of a run is that of its history of lookups and insertions, so what holds of histories holds of runs |
| Machine.HitWasResolved | dataplane/src/main.cpp:189-230 | every answer from the cache is a datagram received from upstream and kept less than sixty seconds before, under the generation the query loaded |
| EventLoop.Dataplane.constructor | dataplane/src/main.cpp:95-124 | the components start in the machine's first state |
| EventLoop.Dataplane.OnClientDatagram | dataplane/src/main.cpp:141-211 | over the real components a client datagram takes the machine's steps query, load, act, or is dropped |
| EventLoop.Dataplane.OnUpstreamDatagram | dataplane/src/main.cpp:213-244 | an upstream datagram takes the steps response, load, keep, or only the first |
| EventLoop.Dataplane.HandleCommand | dataplane/src/runtime/ipc_server.cpp:105-144 | an APPLY_POLICY message takes exactly the writer's steps for the candidate it stands for, check, store, store or the check alone; another command takes none |
| EventLoop.Dataplane.TurnForClient | dataplane/src/main.cpp:141-211 | a client datagram adds query, load, act to the run, or the query alone, and sends what they send |
| EventLoop.Dataplane.TurnForUpstream | dataplane/src/main.cpp:213-244 | an upstream datagram adds response, load, keep to the run, or the response alone, and sends what they send |
| EventLoop.Dataplane.Turn | dataplane/src/main.cpp:134-244 | each event adds exactly its own steps to the run |
| EventLoop.Dataplane.Serve | dataplane/src/main.cpp:134-244 | whatever datagrams, messages and passing time it meets, the loop over the real components goes through a run of the machine that takes the steps of those events in their order and no others, and sends exactly what that run sends |
| EventLoop.Dataplane.Publish | dataplane/src/runtime/ipc_server.cpp:119-144 | an acceptable policy message takes the steps check, store, store, another only the first |
| EventLoop.SentPolicyIsActive | dataplane/src/runtime/ipc_server.cpp:105-144 | after the turn of a readable policy message of at most 8193 characters the policy requested is active and the counter its generation, exactly when that exceeds the counter before; otherwise both cells are as they were |

## Left out

- Sockets, poll, signals, arguments, and starting and stopping threads: datagrams and addresses are values, whether one could be sent is an unknown boolean, and the clock is an input.
- How ids are drawn: `generate_unique_txid` picks any free non-zero id; that the random draws end is not modelled, only that a free id exists.
- Memory orders and the reclamation of shared pointers: each atomic load or store is one step.
- `SnapshotManager::reset`, and more than one writer: `apply_candidate` checks and then stores.
- `EntropyCalculator`: it never changes a decision.
- `PolicyEngine` of dataplane/include/engine/decision.h: a second form of `PolicySnapshot::evaluate`, not used by the loop.
- The GET_STATUS command and the texts of replies; the HTTP handlers, counters and response decoding of the control plane; the escapes of Go's encoder, whose characters are kept out of the strings.
- Reads of the policy socket that return less than was sent: one read is modelled (`Ipc.Received`), which cuts a longer message at 8191 octets.
- Array indices that outgrow `int` in the substring matcher.
- The list's nodes in memory: std::list is an inductive list whose iterators are numbers never used again; that iterators stay valid is what makes the numbers stand for their cells.
- Serve: messages arrive between two turns of the loop; that a publication may also fall between the loads of one turn is in the machine's runs, whose properties hold for every interleaving.
- The locks of cache and forwarder: their calls come from one loop.
- Time within a turn: `cache.find` and `forward_query` each read the clock, `Machine.Act` has one time for both, so no time passes between them.
- ErrorResponseParses: exact among the names that find their header octets unchanged; for changed ones both outcomes occur (`HeaderPointerIsLost`, `HeaderMayChange`).
- SinkholeAnswersQuestion: for names that stay within header and question and find their header octets unchanged; the bound of seven pointers is exact there.
- IdRewriteParses: a name read from id octets that change may be lost or not (`IdPointerIsLost`, `IdMayChange`).
- RequestRoundTrip: the condition is exact for where each search ends and for which lists survive the reader; a search that ends in the wrong place may still come upon equal text (`FieldNameMayAgree`).
- Encoder.QueryRoundTrip: stated for queries the encoder writes; labels it refuses make it fail in `MakeDnsQuery`.
- The benchmark's timing and percentiles, plots, images and evidence files.
