/** What arrives of a policy message: the server reads once, and works on what
    it got (dataplane/src/runtime/ipc_server.cpp).

    A message too long for the read is cut. It arrives as sent exactly when at
    most its last brace and its line end are lost; cut any earlier it may still
    be accepted, without the lists whose closing brackets are gone. */
module PolicyArrival {
  import opened Text
  import opened Names
  import opened Policies
  import opened Ipc
  import opened PolicyMessage
  import Decimal

  // ---------------------------------------------------------------------
  // Searching in cut text
  // ---------------------------------------------------------------------

  lemma CutFind(json: string, n: nat, sub: string)
    requires n <= |json| && sub != ""
    ensures Find(json[..n], sub, 0) ==
              if Find(json, sub, 0).Some? && Find(json, sub, 0).value + |sub| <= n then Find(json, sub, 0) else None
  {
    FindMeaning(json, sub, 0);
    forall p: nat ensures StandsAt(json[..n], sub, p) <==> StandsAt(json, sub, p) && p + |sub| <= n {
      if p + |sub| <= n {
        assert json[..n][p..p + |sub|] == json[p..p + |sub|];
      }
    }
    var k := Find(json, sub, 0);
    FindIs(json[..n], sub, if k.Some? && k.value + |sub| <= n then k else None);
  }

  lemma CutIndexOf(json: string, n: nat, c: char, from: nat)
    requires from <= n <= |json|
    ensures IndexOf(json[..n], c, from) == if IndexOf(json, c, from) < n then IndexOf(json, c, from) else n
  {
    var i := IndexOf(json, c, from);
    IndexOfIs(json[..n], c, from, if i < n then i else n);
  }

  lemma CutAfter(json: string, n: nat, key: string, w: string)
    requires After(json, key) == Some(w) && n <= |json| <= n + |w|
    ensures After(json[..n], key) == Some(w[..|w| - (|json| - n)])
  {
    var q := Quote(key);
    CutFind(json, n, q);
    var at := Find(json, q, 0).value + |key| + 2;
    assert json[..n][at..] == json[at..][..n - at];
  }

  lemma CutAfterNone(json: string, n: nat, key: string)
    requires After(json, key) == None && n <= |json|
    ensures After(json[..n], key) == None
  {
    CutFind(json, n, Quote(key));
  }

  /** What was found in a text is found in every longer one. */
  lemma AfterExtends(json: string, n: nat, key: string, w: string)
    requires n <= |json| && After(json[..n], key) == Some(w)
    ensures After(json, key) == Some(w + json[n..])
  {
    var q := Quote(key);
    CutFind(json, n, q);
    var at := Find(json, q, 0).value + |key| + 2;
    assert json[at..] == json[..n][at..] + json[n..];
  }

  lemma CutTail(value: string, tail: string, lost: nat)
    requires lost <= |tail|
    ensures (":" + value + tail)[..|":" + value + tail| - lost] == ":" + value + tail[..|tail| - lost]
  {
  }

  lemma StrSurvives(json: string, n: nat, key: string, s: string, tail: string)
    requires After(json, key) == Some(":" + Quote(s) + tail) && NoQuote(s) && n <= |json| <= n + |tail|
    ensures ExtractString(json[..n], key) == s
  {
    CutAfter(json, n, key, ":" + Quote(s) + tail);
    CutTail(Quote(s), tail, |json| - n);
    ReadStr(json[..n], key, s, tail[..|tail| - (|json| - n)]);
  }

  lemma NumberSurvives(json: string, n: nat, key: string, x: nat, tail: string)
    requires After(json, key) == Some(":" + PrintValue(Number(x)) + tail) && n <= |json| <= n + |tail|
    requires EndsValue(tail) && x < TWO_64 && Lacks(key, ':')
    ensures ExtractUint64(json[..n], key) == x
  {
    CutAfter(json, n, key, ":" + PrintValue(Number(x)) + tail);
    CutTail(PrintValue(Number(x)), tail, |json| - n);
    ReadNumber(json[..n], key, x, tail[..|tail| - (|json| - n)]);
  }

  lemma ListSurvives(json: string, n: nat, key: string, items: seq<string>, tail: string)
    requires After(json, key) == Some(":" + PrintValue(Strings(items)) + tail) && n <= |json| <= n + |tail|
    requires Lacks(key, '[') && AllPlain(items) && Unbracketed(items)
    ensures ExtractStrings(json[..n], key) == items
  {
    CutAfter(json, n, key, ":" + PrintValue(Strings(items)) + tail);
    CutTail(PrintValue(Strings(items)), tail, |json| - n);
    ListFound(json[..n], key, items, tail[..|tail| - (|json| - n)]);
  }

  // ---------------------------------------------------------------------
  // Lists, whole or empty
  // ---------------------------------------------------------------------

  /** Where the bracket that ends the list of a key stands; the end of the text
      if there is none. */
  function ClosingBracket(json: string, key: string): (r: nat)
    ensures r <= |json|
  {
    var k := Find(json, Quote(key), 0);
    if k.None? then |json| else IndexOf(json, ']', IndexOf(json, '[', k.value))
  }

  /** Of a text that is cut before the bracket, a list is read as empty. */
  lemma CutListIsEmpty(json: string, n: nat, key: string)
    requires n <= |json| && Lacks(key, '[') && ClosingBracket(json, key) >= n
    ensures ExtractStrings(json[..n], key) == []
  {
    var cut, q := json[..n], Quote(key);
    var k := Find(json, q, 0);
    CutFind(json, n, q);
    if k.Some? && k.value + |q| <= n {
      var open := IndexOf(json, '[', k.value);
      CutIndexOf(json, n, '[', k.value);
      if open < n {
        CutIndexOf(json, n, ']', open);
      }
    }
  }

  /** The bracket found is the one that ends the list. */
  lemma BracketPlace(json: string, key: string, items: seq<string>, tail: string)
    requires After(json, key) == Some(":" + PrintValue(Strings(items)) + tail)
    requires Lacks(key, '[') && Unbracketed(items)
    ensures ClosingBracket(json, key) + 1 + |tail| == |json|
  {
    ListingNoBracket("", items);
    BracketAfter(json, key, Listing("", items), tail);
  }

  lemma BracketAfter(json: string, key: string, l: string, tail: string)
    requires After(json, key) == Some(":" + ("[" + l + "]") + tail) && Lacks(key, '[') && Lacks(l, ']')
    ensures ClosingBracket(json, key) + 1 + |tail| == |json|
  {
    var k, at := AtKey(json, key, ":", "[" + l + "]", tail);
    assert |json[at..]| == |json| - at;
    PiecedInThree(json, "[", l, "]", at);
    BracketsAt(json, key, k, ":", l, at + 1, at + 1 + |l|);
  }

  /** What a cut text still has of a list. */
  function Kept(r: Request, key: string, items: seq<string>, n: nat): seq<string> {
    if ClosingBracket(Print(r), key) < n then items else []
  }

  /** A list of a cut message is read whole, if its closing bracket is left, and
      as empty otherwise. */
  lemma ListIsWholeOrEmpty(r: Request, key: string, items: seq<string>, n: nat)
    requires Findable(r, key) && AllPlain(items) && Unbracketed(items) && n <= |Print(r)|
    requires FieldOf(FieldsOf(r), key) == Present(Strings(items))
    ensures ExtractStrings(Print(r)[..n], key) == Kept(r, key, items, n)
  {
    var tail := FieldFound(r, key);
    if items == [] {
      CutAfterNone(Print(r), n, key);
    } else {
      PrintedListIsWholeOrEmpty(Print(r), key, items, tail, n);
    }
  }

  lemma PrintedListIsWholeOrEmpty(json: string, key: string, items: seq<string>, tail: string, n: nat)
    requires After(json, key) == Some(":" + PrintValue(Strings(items)) + tail) && n <= |json|
    requires key in FIELD_NAMES && AllPlain(items) && Unbracketed(items)
    ensures ExtractStrings(json[..n], key) == if ClosingBracket(json, key) < n then items else []
  {
    NamesLack(key);
    BracketPlace(json, key, items, tail);
    if ClosingBracket(json, key) < n {
      ListSurvives(json, n, key, items, tail);
    } else {
      CutListIsEmpty(json, n, key);
    }
  }

  /** The bracket of the list printed last is followed by the brace and the line end. */
  lemma LastBracket(r: Request, key: string, items: seq<string>)
    requires Findable(r, key) && Unbracketed(items) && items != []
    requires FieldOf(FieldsOf(r), key) == Some(Strings(items)) && IsLast(FieldsOf(r), key)
    ensures ClosingBracket(Print(r), key) + 3 == |Print(r)|
  {
    var tail := FieldFound(r, key);
    NamesLack(key);
    BracketPlace(Print(r), key, items, tail);
  }

  // ---------------------------------------------------------------------
  // The fields before the lists
  // ---------------------------------------------------------------------

  function WithoutLists(r: Request): Request {
    r.(suffixBlocks := [], exactBlocks := [], allowlist := [])
  }

  /** The end of what is printed before the lists. */
  function HeadLength(r: Request): int {
    |Print(WithoutLists(r))| - 2
  }

  function Append(f: Fields, g: Fields): Fields {
    if f.Done? then g else f.(more := Append(f.more, g))
  }

  function ListFields(r: Request): Fields {
    OmitEmpty("suffix_blocks", Strings(r.suffixBlocks),
      OmitEmpty("exact_blocks", Strings(r.exactBlocks),
        OmitEmpty("allowlist", Strings(r.allowlist), Done)))
  }

  lemma AppendOmitEmpty(name: string, v: Value, more: Fields, g: Fields)
    ensures Append(OmitEmpty(name, v, more), g) == OmitEmpty(name, v, Append(more, g))
  {
  }

  lemma FieldsAppended(r: Request)
    ensures FieldsOf(r) == Append(FieldsOf(WithoutLists(r)), ListFields(r))
  {
    var g := ListFields(r);
    var hash := OmitEmpty("version_hash", Str(r.versionHash), Done);
    AppendOmitEmpty("version_hash", Str(r.versionHash), Done, g);
    AppendOmitEmpty("generation", Number(r.generation), hash, g);
  }

  lemma {:induction false} AppendedText(f: Fields, g: Fields)
    requires f.Field?
    ensures |PrintFields(f)| >= 2 && PrintFields(f)[..|PrintFields(f)| - 2] <= PrintFields(Append(f, g))
    ensures g.Done? ==> |PrintFields(f)| == |PrintFields(Append(f, g))|
  {
    var v := Quote(f.name) + ":" + PrintValue(f.value);
    if f.more.Done? {
      SameStart(v, "}\n", if g.Done? then "}\n" else "," + PrintFields(g));
    } else {
      AppendedText(f.more, g);
      SameStart(v, "," + PrintFields(f.more), "," + PrintFields(Append(f.more, g)));
    }
  }

  lemma SameStart(v: string, a: string, b: string)
    requires |a| >= 2 && a[..|a| - 2] <= b
    ensures (v + a)[..|v + a| - 2] <= v + b
  {
    assert (v + a)[..|v + a| - 2] == v + a[..|a| - 2];
    assert v + b == (v + a[..|a| - 2]) + b[|a| - 2..];
  }

  lemma HeadStands(r: Request)
    ensures 0 <= HeadLength(r) <= |Print(r)|
    ensures Print(r)[..HeadLength(r)] == Print(WithoutLists(r))[..HeadLength(r)]
    ensures ListFields(r).Done? ==> HeadLength(r) + 2 == |Print(r)|
  {
    var a, b := PrintFields(FieldsOf(WithoutLists(r))), PrintFields(FieldsOf(r));
    FieldsAppended(r);
    AppendedText(FieldsOf(WithoutLists(r)), ListFields(r));
    SameStart("{", a, b);
    assert ("{" + b)[..|"{" + a| - 2] == ("{" + a)[..|"{" + a| - 2];
  }

  lemma HeadIsShorter(r: Request)
    ensures HeadLength(r) + 2 <= |Print(r)|
  {
    FieldsAppended(r);
    AppendedLength(FieldsOf(WithoutLists(r)), ListFields(r));
  }

  lemma {:induction false} AppendedLength(f: Fields, g: Fields)
    requires f.Field?
    ensures |PrintFields(f)| <= |PrintFields(Append(f, g))|
  {
    if f.more.Field? {
      AppendedLength(f.more, g);
    } else if g.Field? {
      assert |PrintFields(g)| >= 2;
    }
  }

  lemma {:induction false} QuietBefore(f: Fields, g: Fields, key: string)
    requires QuietUntil(Append(f, g), key)
    ensures QuietUntil(f, key)
  {
    if f.Field? && f.name != key {
      QuietBefore(f.more, g, key);
    }
  }

  lemma HeadFindable(r: Request, key: string)
    requires Findable(r, key)
    ensures Findable(WithoutLists(r), key)
  {
    FieldsAppended(r);
    QuietBefore(FieldsOf(WithoutLists(r)), ListFields(r), key);
  }

  predicate IsHeadKey(key: string) {
    key == "command" || key == "generation" || key == "version_hash"
  }

  lemma SameHeadField(r: Request, key: string)
    requires IsHeadKey(key)
    ensures FieldOf(FieldsOf(WithoutLists(r)), key) == FieldOf(FieldsOf(r), key)
  {
    FieldsPresent(r, key);
    FieldsPresent(WithoutLists(r), key);
  }

  lemma TailGoesOn(json: string, head: string, m: nat, key: string, v: string, tail: string, tail': string)
    requires m <= |json| && m + 2 == |head| && json[..m] == head[..m] && |tail'| >= 2
    requires After(json, key) == Some(":" + v + tail) && After(head, key) == Some(":" + v + tail')
    ensures |json| <= m + |tail|
  {
    CutAfter(head, m, key, ":" + v + tail');
    CutTail(v, tail', 2);
    AfterExtends(json, m, key, ":" + v + tail'[..|tail'| - 2]);
    assert |":" + v + tail| == |":" + v + tail'[..|tail'| - 2] + json[m..]|;
  }

  /** A field before the lists ends where they begin, at the latest. */
  lemma HeadField(r: Request, key: string) returns (tail: string)
    requires Findable(r, key) && IsHeadKey(key) && FieldOf(FieldsOf(r), key).Some?
    ensures After(Print(r), key) == Some(":" + PrintValue(FieldOf(FieldsOf(r), key).value) + tail) && EndsValue(tail)
    ensures 0 <= HeadLength(r) <= |Print(r)| <= HeadLength(r) + |tail|
  {
    tail := FieldFound(r, key);
    HeadFindable(r, key);
    HeadStands(r);
    SameHeadField(r, key);
    var tail' := FieldFound(WithoutLists(r), key);
    var v := PrintValue(FieldOf(FieldsOf(r), key).value);
    TailGoesOn(Print(r), Print(WithoutLists(r)), HeadLength(r), key, v, tail, tail');
  }

  lemma StrArrives(r: Request, key: string, s: string, n: nat)
    requires Findable(r, key) && IsHeadKey(key) && PlainText(s) && HeadLength(r) <= n <= |Print(r)|
    requires FieldOf(FieldsOf(r), key) == Some(Str(s)) || FieldOf(FieldsOf(r), key) == Present(Str(s))
    ensures ExtractString(Print(r)[..n], key) == s
  {
    if FieldOf(FieldsOf(r), key).Some? {
      var tail := HeadField(r, key);
      StrSurvives(Print(r), n, key, s, tail);
    } else {
      var tail := FieldFound(r, key);
      CutAfterNone(Print(r), n, key);
    }
  }

  lemma NumberArrives(r: Request, key: string, x: nat, n: nat)
    requires Findable(r, key) && IsHeadKey(key) && x < TWO_64 && HeadLength(r) <= n <= |Print(r)|
    requires FieldOf(FieldsOf(r), key) == Present(Number(x))
    ensures ExtractUint64(Print(r)[..n], key) == x
  {
    if x != 0 {
      var tail := HeadField(r, key);
      NumberSurvives(Print(r), n, key, x, tail);
    } else {
      var tail := FieldFound(r, key);
      CutAfterNone(Print(r), n, key);
    }
  }

  // ---------------------------------------------------------------------
  // What a cut message becomes
  // ---------------------------------------------------------------------

  /** Every list of a cut message is whole or empty; cut within or past its
      lists, the rest of it is as sent. */
  lemma CutMessageMeans(r: Request, n: nat)
    requires IsReadable(r) && n <= |Print(r)|
    ensures var p := CandidateOf(Print(r)[..n]);
            && p.suffixRules == NumberedRules(Kept(r, "suffix_blocks", r.suffixBlocks, n))
            && p.exactBlocks == Members(Kept(r, "exact_blocks", r.exactBlocks, n))
            && p.allowlist == Members(Kept(r, "allowlist", r.allowlist, n))
    ensures HeadLength(r) <= n ==>
              && ExtractString(Print(r)[..n], "command") == r.command
              && CandidateOf(Print(r)[..n]).generation == r.generation
              && CandidateOf(Print(r)[..n]).versionHash == r.versionHash
  {
    ListsMean(r, n);
    if HeadLength(r) <= n {
      HeadMeans(r, n);
    }
  }

  /** The request of which a cut text still has the lists. */
  function AsKept(r: Request, n: nat): Request {
    r.(suffixBlocks := Kept(r, "suffix_blocks", r.suffixBlocks, n),
       exactBlocks := Kept(r, "exact_blocks", r.exactBlocks, n),
       allowlist := Kept(r, "allowlist", r.allowlist, n))
  }

  /** The policy of a cut message decides as the reference over the lists kept. */
  lemma CutPolicyDecides(r: Request, n: nat, name: string)
    requires IsReadable(r) && n <= |Print(r)|
    ensures Allows(CandidateOf(Print(r)[..n]), name) <==> !Blocks(AsKept(r, n), name)
  {
    CutMessageMeans(r, n);
    NumberedDecides(CandidateOf(Print(r)[..n]), AsKept(r, n), name);
  }

  lemma ListsMean(r: Request, n: nat)
    requires IsReadable(r) && n <= |Print(r)|
    ensures ExtractStrings(Print(r)[..n], "suffix_blocks") == Kept(r, "suffix_blocks", r.suffixBlocks, n)
    ensures ExtractStrings(Print(r)[..n], "exact_blocks") == Kept(r, "exact_blocks", r.exactBlocks, n)
    ensures ExtractStrings(Print(r)[..n], "allowlist") == Kept(r, "allowlist", r.allowlist, n)
  {
    FieldsPresent(r, "suffix_blocks");
    FieldsPresent(r, "exact_blocks");
    FieldsPresent(r, "allowlist");
    ListIsWholeOrEmpty(r, "suffix_blocks", r.suffixBlocks, n);
    ListIsWholeOrEmpty(r, "exact_blocks", r.exactBlocks, n);
    ListIsWholeOrEmpty(r, "allowlist", r.allowlist, n);
  }

  lemma HeadMeans(r: Request, n: nat)
    requires IsReadable(r) && HeadLength(r) <= n <= |Print(r)|
    ensures ExtractString(Print(r)[..n], "command") == r.command
    ensures ExtractUint64(Print(r)[..n], "generation") == r.generation
    ensures ExtractString(Print(r)[..n], "version_hash") == r.versionHash
  {
    FieldsPresent(r, "command");
    FieldsPresent(r, "generation");
    FieldsPresent(r, "version_hash");
    assert Findable(r, "command") && Findable(r, "generation") && Findable(r, "version_hash");
    StrArrives(r, "command", r.command, n);
    NumberArrives(r, "generation", r.generation, n);
    StrArrives(r, "version_hash", r.versionHash, n);
  }

  /** A string whose closing quote is cut off is read as empty. */
  lemma CutStrIsEmpty(json: string, n: nat, key: string, s: string, tail: string)
    requires After(json, key) == Some(":" + Quote(s) + tail) && NoQuote(s) && n + |tail| < |json|
    ensures ExtractString(json[..n], key) == ""
  {
    var q := Quote(s);
    var k, at := AtKey(json, key, ":", q, tail);
    Lands(json, '"', k + |key| + 2, ":");
    QuotedAt(json, s, at);
    CutFind(json, n, Quote(key));
    if k + |key| + 2 <= n {
      CutIndexOf(json, n, '"', k + |key| + 2);
      if at < n {
        CutIndexOf(json, n, '"', at + 1);
      }
    }
  }

  /** A string printed last, cut before the brace, is read as empty. */
  lemma LastStrIsEmpty(r: Request, n: nat, key: string, s: string)
    requires Findable(r, key) && PlainText(s) && n + 2 < |Print(r)|
    requires FieldOf(FieldsOf(r), key) == Some(Str(s)) && IsLast(FieldsOf(r), key)
    ensures ExtractString(Print(r)[..n], key) == ""
  {
    var tail := FieldFound(r, key);
    CutStrIsEmpty(Print(r), n, key, s, tail);
  }

  lemma HashIsLast(r: Request)
    requires r.versionHash != "" && ListFields(r).Done?
    ensures IsLast(FieldsOf(r), "version_hash")
  {
    var fields := OmitEmpty("version_hash", Str(r.versionHash), ListFields(r));
    fields := LastOmitEmpty("generation", Number(r.generation), fields, "version_hash");
  }

  /** Cut before its lists, the message has no version hash left. */
  lemma CutHeadIsRefused(r: Request, n: nat)
    requires Findable(r, "version_hash") && n < HeadLength(r) && n <= |Print(r)|
    ensures CandidateOf(Print(r)[..n]).versionHash == ""
  {
    var key, bare := "version_hash", WithoutLists(r);
    FieldsPresent(bare, key);
    HeadFindable(r, key);
    HeadStands(r);
    assert Print(r)[..n] == Print(r)[..HeadLength(r)][..n] == Print(bare)[..n];
    if r.versionHash == "" {
      var tail := FieldFound(bare, key);
      CutAfterNone(Print(bare), n, key);
    } else {
      HashIsLast(bare);
      LastStrIsEmpty(bare, n, key, r.versionHash);
    }
  }

  lemma LastOmitEmpty(name: string, v: Value, more: Fields, key: string) returns (fields: Fields)
    requires name != key && IsLast(more, key)
    ensures fields == OmitEmpty(name, v, more) && IsLast(fields, key)
  {
    fields := OmitEmpty(name, v, more);
  }

  lemma LastList(r: Request, key: string)
    requires IsLast(ListFields(r), key) && !IsHeadKey(key)
    ensures IsLast(FieldsOf(r), key)
  {
    var fields := LastOmitEmpty("version_hash", Str(r.versionHash), ListFields(r), key);
    fields := LastOmitEmpty("generation", Number(r.generation), fields, key);
  }

  /** Cut before its last bracket, the message has lost a list. */
  lemma LastListIsLost(r: Request, n: nat)
    requires IsReadable(r) && ListFields(r).Field? && n + 2 < |Print(r)|
    ensures || (r.suffixBlocks != [] && Kept(r, "suffix_blocks", r.suffixBlocks, n) == [])
            || (r.exactBlocks != [] && Kept(r, "exact_blocks", r.exactBlocks, n) == [])
            || (r.allowlist != [] && Kept(r, "allowlist", r.allowlist, n) == [])
  {
    if r.allowlist != [] {
      AllowlistIsLost(r, n);
    } else if r.exactBlocks != [] {
      ExactsAreLost(r, n);
    } else {
      SuffixesAreLost(r, n);
    }
  }

  lemma AllowlistIsLost(r: Request, n: nat)
    requires IsReadable(r) && r.allowlist != [] && n + 2 < |Print(r)|
    ensures Kept(r, "allowlist", r.allowlist, n) == []
  {
    var fields := OmitEmpty("allowlist", Strings(r.allowlist), Done);
    fields := LastOmitEmpty("exact_blocks", Strings(r.exactBlocks), fields, "allowlist");
    fields := LastOmitEmpty("suffix_blocks", Strings(r.suffixBlocks), fields, "allowlist");
    FieldsPresent(r, "allowlist");
    LastIsLost(r, "allowlist", r.allowlist, n);
  }

  lemma ExactsAreLost(r: Request, n: nat)
    requires IsReadable(r) && r.exactBlocks != [] && r.allowlist == [] && n + 2 < |Print(r)|
    ensures Kept(r, "exact_blocks", r.exactBlocks, n) == []
  {
    var fields := OmitEmpty("exact_blocks", Strings(r.exactBlocks), Done);
    fields := LastOmitEmpty("suffix_blocks", Strings(r.suffixBlocks), fields, "exact_blocks");
    FieldsPresent(r, "exact_blocks");
    LastIsLost(r, "exact_blocks", r.exactBlocks, n);
  }

  lemma SuffixesAreLost(r: Request, n: nat)
    requires IsReadable(r) && r.suffixBlocks != [] && r.exactBlocks == [] && r.allowlist == [] && n + 2 < |Print(r)|
    ensures Kept(r, "suffix_blocks", r.suffixBlocks, n) == []
  {
    FieldsPresent(r, "suffix_blocks");
    LastIsLost(r, "suffix_blocks", r.suffixBlocks, n);
  }

  lemma LastIsLost(r: Request, key: string, items: seq<string>, n: nat)
    requires Findable(r, key) && Unbracketed(items) && items != [] && n + 2 < |Print(r)|
    requires !IsHeadKey(key) && IsLast(ListFields(r), key)
    requires FieldOf(FieldsOf(r), key) == Present(Strings(items))
    ensures Kept(r, key, items, n) == []
  {
    LastList(r, key);
    LastBracket(r, key, items);
  }

  /** No list is lost where only the brace and the line end are cut off. */
  lemma NoListIsLost(r: Request, key: string, items: seq<string>, n: nat)
    requires Findable(r, key) && Unbracketed(items) && n + 2 >= |Print(r)|
    requires FieldOf(FieldsOf(r), key) == Present(Strings(items))
    ensures Kept(r, key, items, n) == items
  {
    if items != [] {
      var tail := FieldFound(r, key);
      NamesLack(key);
      BracketPlace(Print(r), key, items, tail);
    }
  }

  /** A cut message stands for the policy requested exactly when it has lost no
      more than its brace and its line end. */
  lemma CutArrives(r: Request, n: nat)
    requires IsReadable(r) && n <= |Print(r)|
    ensures n + 2 >= |Print(r)| ==> CandidateOf(Print(r)[..n]) == Requested(r)
                                    && ExtractString(Print(r)[..n], "command") == r.command
    ensures r.versionHash != "" ==> (CandidateOf(Print(r)[..n]) == Requested(r) <==> n + 2 >= |Print(r)|)
  {
    if n + 2 >= |Print(r)| {
      NothingIsLost(r, n);
    } else if r.versionHash != "" {
      SomethingIsLost(r, n);
    }
  }

  lemma NothingIsLost(r: Request, n: nat)
    requires IsReadable(r) && n <= |Print(r)| <= n + 2
    ensures CandidateOf(Print(r)[..n]) == Requested(r) && ExtractString(Print(r)[..n], "command") == r.command
  {
    CutMessageMeans(r, n);
    HeadIsShorter(r);
    FieldsPresent(r, "suffix_blocks");
    FieldsPresent(r, "exact_blocks");
    FieldsPresent(r, "allowlist");
    NoListIsLost(r, "suffix_blocks", r.suffixBlocks, n);
    NoListIsLost(r, "exact_blocks", r.exactBlocks, n);
    NoListIsLost(r, "allowlist", r.allowlist, n);
  }

  lemma SomethingIsLost(r: Request, n: nat)
    requires IsReadable(r) && n + 2 < |Print(r)| && r.versionHash != ""
    ensures CandidateOf(Print(r)[..n]) != Requested(r)
  {
    if n < HeadLength(r) {
      assert Findable(r, "version_hash");
      CutHeadIsRefused(r, n);
    } else {
      HeadStands(r);
      CutMessageMeans(r, n);
      LastListIsLost(r, n);
      LostIsMissed(r.suffixBlocks, r.exactBlocks, r.allowlist);
    }
  }

  lemma LostIsMissed(suffixes: seq<string>, exacts: seq<string>, allows: seq<string>)
    ensures suffixes != [] ==> NumberedRules([]) != NumberedRules(suffixes)
    ensures exacts != [] ==> Members([]) != Members(exacts)
    ensures allows != [] ==> Members([]) != Members(allows)
  {
    if exacts != [] { assert exacts[0] in Members(exacts); }
    if allows != [] { assert allows[0] in Members(allows); }
  }

  // ---------------------------------------------------------------------
  // One read
  // ---------------------------------------------------------------------

  predicate ZeroFree(v: Value) {
    match v
    case Number(n) => true
    case Str(s) => Lacks(s, '\0')
    case Strings(items) => forall i :: 0 <= i < |items| ==> Lacks(items[i], '\0')
  }

  predicate ZeroFreeFields(f: Fields) {
    f.Field? ==> Lacks(f.name, '\0') && ZeroFree(f.value) && ZeroFreeFields(f.more)
  }

  lemma OneMoreZeroFree(name: string, v: Value, more: Fields) returns (fields: Fields)
    requires Lacks(name, '\0') && ZeroFree(v) && ZeroFreeFields(more)
    ensures fields == OmitEmpty(name, v, more) && ZeroFreeFields(fields)
  {
    fields := OmitEmpty(name, v, more);
  }

  lemma {:induction false} PrintedZeroFree(f: Fields)
    requires ZeroFreeFields(f)
    ensures Lacks(PrintFields(f), '\0')
  {
    if f.Field? {
      PrintedZeroFree(f.more);
      ValueZeroFree(f.value);
    }
  }

  lemma ValueZeroFree(v: Value)
    requires ZeroFree(v)
    ensures Lacks(PrintValue(v), '\0')
  {
    match v
    case Number(n) => assert Decimal.AreDigits(Decimal.Print(n));
    case Str(s) =>
    case Strings(items) => ListingZeroFree("", items);
  }

  lemma {:induction false} ListingZeroFree(lead: string, items: seq<string>)
    requires Lacks(lead, '\0') && ZeroFree(Strings(items))
    ensures Lacks(Listing(lead, items), '\0')
    decreases |items|
  {
    if items != [] {
      ListingZeroFree(",", items[1..]);
    }
  }

  /** As far as the one read goes, a text is received: it holds no zero character. */
  lemma ReceivedIsCut(r: Request)
    requires PlainRequest(r)
    ensures Received(Print(r)) == if |Print(r)| > READ_SIZE then Print(r)[..READ_SIZE] else Print(r)
  {
    var f := OmitEmpty("allowlist", Strings(r.allowlist), Done);
    f := OneMoreZeroFree("exact_blocks", Strings(r.exactBlocks), f);
    f := OneMoreZeroFree("suffix_blocks", Strings(r.suffixBlocks), f);
    f := OneMoreZeroFree("version_hash", Str(r.versionHash), f);
    f := OneMoreZeroFree("generation", Number(r.generation), f);
    PrintedZeroFree(FieldsOf(r));
    var cut := if |Print(r)| > READ_SIZE then Print(r)[..READ_SIZE] else Print(r);
    IndexOfIs(cut, '\0', 0, |cut|);
  }

  /** A policy sent arrives as sent exactly when its text exceeds one read by no
      more than the brace and the line end; one without a version hash is
      refused in any case. */
  lemma SentPolicyArrives(r: Request)
    requires IsReadable(r)
    ensures |Print(r)| <= 8193 ==> CandidateOf(Received(Print(r))) == Requested(r)
                                   && ExtractString(Received(Print(r)), "command") == r.command
    ensures r.versionHash != "" ==>
              (CandidateOf(Received(Print(r))) == Requested(r) <==> |Print(r)| <= 8193)
    ensures r.versionHash == "" ==> CandidateOf(Received(Print(r))).versionHash == ""
  {
    assert Findable(r, "version_hash");
    var n := if |Print(r)| > READ_SIZE then READ_SIZE else |Print(r)|;
    assert Received(Print(r)) == Print(r)[..n] by {
      ReceivedIsCut(r);
    }
    CutArrives(r, n);
    if r.versionHash == "" {
      NoHashIsRefused(r, n);
    }
  }

  lemma NoHashIsRefused(r: Request, n: nat)
    requires Findable(r, "version_hash") && r.versionHash == "" && n <= |Print(r)|
    ensures CandidateOf(Print(r)[..n]).versionHash == ""
  {
    FieldsPresent(r, "version_hash");
    var tail := FieldFound(r, "version_hash");
    CutAfterNone(Print(r), n, "version_hash");
  }

  /** A policy that arrives decides names as the reference does over the
      requested lists, and reports the number of the suffix that covers a name
      with the fewest labels. */
  lemma SentPolicyDecides(r: Request, name: string)
    requires IsReadable(r) && |Print(r)| <= 8193
    ensures var p := CandidateOf(Received(Print(r)));
            && (Allows(p, name) <==> !Blocks(r, name))
            && (Blocks(r, name) ==> Evaluate(p, name).action == BlockNxDomain)
            && (Blocks(r, name) && name !in r.exactBlocks ==>
                  exists i: nat :: IsReported(r.suffixBlocks, name, i)
                                   && Evaluate(p, name).ruleId == (i + 1) % 0x1_0000_0000)
  {
    SentPolicyArrives(r);
    NumberedDecides(Requested(r), r, name);
  }

  // ---------------------------------------------------------------------
  // A policy that does not arrive
  // ---------------------------------------------------------------------

  /** A policy too long for the read is accepted like the one sent, but where
      the list printed last is that of the names to be blocked, it allows them. */
  lemma CutPolicyMisleads(r: Request, name: string)
    requires IsReadable(r) && HeadLength(r) <= 8191 && 8193 < |Print(r)|
    requires r.allowlist == [] && name in r.exactBlocks
    requires forall i :: 0 <= i < |r.suffixBlocks| ==> !IsUnderSuffix(name, r.suffixBlocks[i])
    ensures var p := CandidateOf(Received(Print(r)));
            && p.generation == r.generation && p.versionHash == r.versionHash
            && ExtractString(Received(Print(r)), "command") == r.command
            && Blocks(r, name) && Allows(p, name)
  {
    assert Findable(r, "command");
    ReceivedIsCut(r);
    CutMessageMeans(r, READ_SIZE);
    ExactsAreLost(r, READ_SIZE);
    CutPolicyDecides(r, READ_SIZE, name);
  }

  lemma {:induction false} ListingLength(lead: string, items: seq<string>)
    ensures |Listing(lead, items)| >= 2 * |items|
    decreases |items|
  {
    if items != [] {
      ListingLength(",", items[1..]);
    }
  }

  const LONG_REQUEST :=
    Request("APPLY_POLICY", 2, "v2", [], seq(READ_SIZE, i requires 0 <= i < READ_SIZE => "ads.test"), [])

  lemma PlainNamesAreReadable(r: Request, name: string)
    requires PlainText(r.command) && PlainText(r.versionHash)
    requires r.command !in FIELD_NAMES && r.versionHash !in FIELD_NAMES
    requires r.suffixBlocks == [] && r.allowlist == []
    requires forall i :: 0 <= i < |r.exactBlocks| ==> r.exactBlocks[i] == name
    requires PlainText(name) && Lacks(name, ']') && name !in FIELD_NAMES
    ensures IsReadable(r)
  {
    forall key | key in FIELD_NAMES ensures Findable(r, key) {
      NamelessIsFindable(r, key);
    }
  }

  lemma LongIsLong(r: Request)
    requires r.suffixBlocks == [] && r.allowlist == [] && |r.exactBlocks| >= READ_SIZE
    ensures READ_SIZE + 2 < |Print(r)|
  {
    FieldsAppended(r);
    AppendedToLists(FieldsOf(WithoutLists(r)), ListFields(r));
    ListingLength("", r.exactBlocks);
  }

  lemma {:induction false} AppendedToLists(f: Fields, g: Fields)
    ensures |PrintFields(Append(f, g))| >= |PrintFields(g)|
  {
    if f.Field? {
      AppendedToLists(f.more, g);
    }
  }

  lemma LongHeadIsShort(r: Request)
    requires r.command == "APPLY_POLICY" && r.generation == 2 && r.versionHash == "v2"
    ensures HeadLength(r) <= READ_SIZE
  {
    assert Decimal.Print(2) == "2";
    var hash := Field("version_hash", Str("v2"), Done);
    var gen := Field("generation", Number(2), hash);
    assert FieldsOf(WithoutLists(r)) == Field("command", Str("APPLY_POLICY"), gen);
    assert |PrintFields(hash)| == 21;
    assert |PrintFields(gen)| == 36;
  }

  /** There is such a policy: accepted, without the names it was sent to block. */
  lemma SomePolicyIsCut()
    ensures var r, p := LONG_REQUEST, CandidateOf(Received(Print(LONG_REQUEST)));
            && IsReadable(r) && Acceptable(Requested(r), 1) && Acceptable(p, 1) && p != Requested(r)
            && ExtractString(Received(Print(r)), "command") == "APPLY_POLICY"
            && Blocks(r, "ads.test") && Allows(p, "ads.test")
  {
    var r := LONG_REQUEST;
    PlainNamesAreReadable(r, "ads.test");
    LongIsLong(r);
    LongHeadIsShort(r);
    assert r.exactBlocks[0] == "ads.test";
    CutPolicyMisleads(r, "ads.test");
    SentPolicyArrives(r);
  }
}
