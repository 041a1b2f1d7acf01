/** The text the control plane sends (controlplane/main.go), and what the
    dataplane makes of it. */
module PolicyMessage {
  import opened Text
  import opened Names
  import opened Policies
  import opened Ipc
  import Decimal
  import SuffixTrie

  // ---------------------------------------------------------------------
  // The printer
  // ---------------------------------------------------------------------

  type U64 = x: int | 0 <= x < TWO_64

  datatype Request = Request(command: string, generation: U64, versionHash: string,
                             suffixBlocks: seq<string>, exactBlocks: seq<string>, allowlist: seq<string>)

  datatype Value = Number(n: nat) | Str(s: string) | Strings(items: seq<string>)

  datatype Fields = Done | Field(name: string, value: Value, more: Fields)

  /** Numbers that are 0, and strings and lists that are empty. */
  predicate IsEmpty(v: Value) {
    match v
    case Number(n) => n == 0
    case Str(s) => s == ""
    case Strings(items) => items == []
  }

  function OmitEmpty(name: string, v: Value, more: Fields): Fields {
    if IsEmpty(v) then more else Field(name, v, more)
  }

  /** The fields of a request in the order of their declaration; all but the
      command are omitted when empty. */
  function FieldsOf(r: Request): Fields {
    Leading(r, OmitEmpty("suffix_blocks", Strings(r.suffixBlocks),
                 OmitEmpty("exact_blocks", Strings(r.exactBlocks),
                   OmitEmpty("allowlist", Strings(r.allowlist), Done))))
  }

  function Leading(r: Request, lists: Fields): Fields {
    Field("command", Str(r.command),
      OmitEmpty("generation", Number(r.generation),
        OmitEmpty("version_hash", Str(r.versionHash), lists)))
  }

  /** Quoted strings, each after a separator and the first after `lead`. */
  function Listing(lead: string, items: seq<string>): string
    decreases |items|
  {
    if items == [] then "" else lead + Quote(items[0]) + Listing(",", items[1..])
  }

  function PrintValue(v: Value): string {
    match v
    case Number(n) => Decimal.Print(n)
    case Str(s) => Quote(s)
    case Strings(items) => "[" + Listing("", items) + "]"
  }

  function PrintFields(f: Fields): string {
    match f
    case Done => "}\n"
    case Field(name, v, more) =>
      Quote(name) + ":" + PrintValue(v) + (if more.Done? then "}\n" else "," + PrintFields(more))
  }

  /** JSON text with a line end. */
  function Print(r: Request): string {
    "{" + PrintFields(FieldsOf(r))
  }

  // ---------------------------------------------------------------------
  // What keeps a text readable
  // ---------------------------------------------------------------------

  const FIELD_NAMES := ["command", "generation", "version_hash", "suffix_blocks", "exact_blocks", "allowlist"]

  /** Characters printed as they are between quotes. */
  predicate IsPlain(c: char) {
    ' ' <= c <= '~' && c !in "\"\\<>&"
  }

  predicate PlainText(s: string) {
    forall i :: 0 <= i < |s| ==> IsPlain(s[i])
  }

  predicate AllPlain(items: seq<string>) {
    forall i :: 0 <= i < |items| ==> PlainText(items[i])
  }

  predicate PlainRequest(r: Request) {
    PlainText(r.command) && PlainText(r.versionHash)
    && AllPlain(r.suffixBlocks) && AllPlain(r.exactBlocks) && AllPlain(r.allowlist)
  }

  // ---------------------------------------------------------------------
  // Looking for a key in printed text
  // ---------------------------------------------------------------------

  predicate Lacks(s: string, c: char) {
    forall i :: 0 <= i < |s| ==> s[i] != c
  }

  predicate NoQuote(s: string) {
    Lacks(s, '"')
  }

  /** The text after the first quoted occurrence of a key. */
  function After(s: string, key: string): Option<string> {
    var k := Find(s, Quote(key), 0);
    if k.None? then None else Some(s[k.value + |key| + 2..])
  }

  predicate IsKey(key: string) {
    key != "" && NoQuote(key) && 'a' <= key[0] <= 'z'
  }

  predicate IsGap(g: string) {
    NoQuote(g) && g != "" && !('a' <= g[0] <= 'z')
  }

  lemma FindIs(s: string, sub: string, r: Option<nat>)
    requires r.Some? ==> StandsAt(s, sub, r.value) && forall p: nat :: p < r.value ==> !StandsAt(s, sub, p)
    requires r.None? ==> forall p: nat :: !StandsAt(s, sub, p)
    ensures Find(s, sub, 0) == r
  {
    FindMeaning(s, sub, 0);
  }

  lemma StandsShifted(pre: string, w: string, sub: string, p: nat)
    ensures StandsAt(pre + w, sub, |pre| + p) <==> StandsAt(w, sub, p)
  {
    if p + |sub| <= |w| {
      assert (pre + w)[|pre| + p..|pre| + p + |sub|] == w[p..p + |sub|];
    }
  }

  lemma NoneShifted(pre: string, w: string, q: string, p: nat)
    requires p < |pre| ==> !StandsAt(pre + w, q, p)
    requires p >= |pre| ==> !StandsAt(w, q, p - |pre|)
    ensures !StandsAt(pre + w, q, p)
  {
    if p >= |pre| {
      StandsShifted(pre, w, q, p - |pre|);
    }
  }

  /** Where no occurrence begins in a prefix, the first one is that of the rest. */
  lemma FirstIsShifted(pre: string, w: string, q: string)
    requires forall p: nat :: p < |pre| ==> !StandsAt(pre + w, q, p)
    ensures Find(w, q, 0).None? ==> Find(pre + w, q, 0) == None
    ensures Find(w, q, 0).Some? ==> Find(pre + w, q, 0) == Some(|pre| + Find(w, q, 0).value)
  {
    var s, k := pre + w, Find(w, q, 0);
    FindMeaning(w, q, 0);
    forall p: nat | k.None? || p < |pre| + k.value ensures !StandsAt(s, q, p) {
      NoneShifted(pre, w, q, p);
    }
    if k.Some? {
      StandsShifted(pre, w, q, k.value);
      FindIs(s, q, Some(|pre| + k.value));
    } else {
      FindIs(s, q, None);
    }
  }

  /** Text in which no occurrence begins can be skipped. */
  lemma SkipFront(pre: string, w: string, key: string)
    requires forall p: nat :: p < |pre| ==> !StandsAt(pre + w, Quote(key), p)
    ensures After(pre + w, key) == After(w, key)
  {
    var k := Find(w, Quote(key), 0);
    FirstIsShifted(pre, w, Quote(key));
    if k.Some? {
      assert (pre + w)[|pre| + k.value + |key| + 2..] == w[k.value + |key| + 2..];
    }
  }

  lemma StandsAtQuote(s: string, key: string, p: nat)
    ensures StandsAt(s, Quote(key), p) ==>
              p + |key| + 2 <= |s| && s[p] == '"' && s[p + 1 + |key|] == '"'
              && forall i :: 0 <= i < |key| ==> s[p + 1 + i] == key[i]
  {
    var q := Quote(key);
    if StandsAt(s, q, p) {
      assert s[p..p + |q|][0] == q[0] && s[p..p + |q|][1 + |key|] == q[1 + |key|];
      forall i | 0 <= i < |key| ensures s[p + 1 + i] == key[i] {
        assert s[p..p + |q|][1 + i] == q[1 + i];
      }
    }
  }

  lemma SkipPlain(g: string, w: string, key: string)
    requires NoQuote(g)
    ensures After(g + w, key) == After(w, key)
  {
    forall p: nat | p < |g| ensures !StandsAt(g + w, Quote(key), p) {
      StandsAtQuote(g + w, key, p);
      assert (g + w)[p] == g[p];
    }
    SkipFront(g, w, key);
  }

  /** Text after a closing quote is skipped, when it cannot begin a key. */
  lemma SkipGap(g: string, w: string, key: string)
    requires IsKey(key) && IsGap(g)
    ensures After("\"" + g + w, key) == After(w, key)
  {
    var pre := "\"" + g;
    forall p: nat | p < |pre| ensures !StandsAt(pre + w, Quote(key), p) {
      StandsAtQuote(pre + w, key, p);
      assert (pre + w)[1] == g[0];
      assert p > 0 ==> (pre + w)[p] == g[p - 1];
    }
    SkipFront(pre, w, key);
  }

  /** A quoted string that is not the key is skipped, up to its closing quote. */
  lemma SkipString(t: string, w: string, key: string)
    requires NoQuote(t) && NoQuote(key) && t != key
    ensures After(Quote(t) + w, key) == After("\"" + w, key)
  {
    var pre := "\"" + t;
    var s := pre + ("\"" + w);
    assert s == Quote(t) + w;
    forall p: nat | p < |pre| ensures !StandsAt(s, Quote(key), p) {
      if p == 0 {
        OtherSpan(t, w, key);
      } else {
        StandsAtQuote(s, key, p);
        assert s[p] == t[p - 1];
      }
    }
    SkipFront(pre, "\"" + w, key);
  }

  /** Two quoted spans that begin together end together. */
  lemma OtherSpan(t: string, w: string, key: string)
    requires NoQuote(t) && NoQuote(key) && t != key
    ensures !StandsAt("\"" + t + ("\"" + w), Quote(key), 0)
  {
    var s := "\"" + t + ("\"" + w);
    StandsAtQuote(s, key, 0);
    assert s[1 + |t|] == '"';
    assert forall i :: 0 <= i < |t| ==> s[1 + i] == t[i];
    if |key| == |t| {
      var i :| 0 <= i < |t| && t[i] != key[i];
    }
  }

  lemma KeyIsHere(w: string, key: string)
    ensures After(Quote(key) + w, key) == Some(w)
  {
    var s := Quote(key) + w;
    assert s[0..0 + |Quote(key)|] == Quote(key);
    FindIs(s, Quote(key), Some(0));
    assert s[|key| + 2..] == w;
  }

  // ---------------------------------------------------------------------
  // From keys to fields
  // ---------------------------------------------------------------------

  predicate Unquoted(v: Value) {
    match v
    case Number(n) => true
    case Str(s) => NoQuote(s)
    case Strings(items) => forall i :: 0 <= i < |items| ==> NoQuote(items[i])
  }

  predicate Avoids(v: Value, key: string) {
    match v
    case Number(n) => true
    case Str(s) => s != key
    case Strings(items) => key !in items
  }

  predicate Quiet(v: Value, key: string) {
    Unquoted(v) && Avoids(v, key)
  }

  predicate UnquotedFields(f: Fields) {
    match f
    case Done => true
    case Field(name, v, more) => IsKey(name) && Unquoted(v) && UnquotedFields(more)
  }

  /** No string before the first field of a name is that name; no string at all,
      if there is no such field. */
  predicate QuietUntil(f: Fields, key: string) {
    match f
    case Done => true
    case Field(name, v, more) => name == key || (Avoids(v, key) && QuietUntil(more, key))
  }

  /** The first field of a name. */
  function FieldOf(f: Fields, key: string): Option<Value> {
    match f
    case Done => None
    case Field(name, v, more) => if name == key then Some(v) else FieldOf(more, key)
  }

  /** The first field of a name is the last field of all. */
  predicate IsLast(f: Fields, key: string) {
    match f
    case Done => false
    case Field(name, v, more) => if name == key then more.Done? else IsLast(more, key)
  }

  lemma {:induction false} SkipListing(lead: string, items: seq<string>, end: string, w: string, key: string)
    requires IsKey(key) && Quiet(Strings(items), key) && IsGap(lead) && IsGap(end)
    ensures After("\"" + (Listing(lead, items) + (end + w)), key) == After(w, key)
    decreases |items|
  {
    if items == [] {
      assert "\"" + (Listing(lead, items) + (end + w)) == "\"" + end + w;
      SkipGap(end, w, key);
    } else {
      var rest := Listing(",", items[1..]) + (end + w);
      assert "\"" + (Listing(lead, items) + (end + w)) == "\"" + lead + (Quote(items[0]) + rest);
      SkipGap(lead, Quote(items[0]) + rest, key);
      SkipString(items[0], rest, key);
      SkipListing(",", items[1..], end, w, key);
    }
  }

  lemma ListingLed(lead: string, items: seq<string>)
    requires items != []
    ensures Listing(lead, items) == lead + Listing("", items)
  {
    assert lead + Listing("", items) == lead + Quote(items[0]) + Listing(",", items[1..]);
  }

  lemma DigitsNoQuote(n: nat)
    ensures NoQuote(Decimal.Print(n))
  {
    assert Decimal.AreDigits(Decimal.Print(n));
  }

  lemma SkipNumber(n: nat, end: string, w: string, key: string)
    requires IsKey(key) && IsGap(end)
    ensures After("\"" + (":" + PrintValue(Number(n)) + (end + w)), key) == After(w, key)
  {
    var d := Decimal.Print(n);
    DigitsNoQuote(n);
    assert "\"" + (":" + d + (end + w)) == "\"" + (":" + d + end) + w;
    SkipGap(":" + d + end, w, key);
  }

  lemma SkipStr(s: string, end: string, w: string, key: string)
    requires IsKey(key) && NoQuote(s) && s != key && IsGap(end)
    ensures After("\"" + (":" + PrintValue(Str(s)) + (end + w)), key) == After(w, key)
  {
    var q := Quote(s);
    assert "\"" + (":" + q + (end + w)) == "\"" + ":" + (q + (end + w));
    SkipGap(":", q + (end + w), key);
    SkipString(s, end + w, key);
    assert "\"" + (end + w) == "\"" + end + w;
    SkipGap(end, w, key);
  }

  lemma InBrackets(a: string, b: string, l: string, c: string, end: string, w: string)
    ensures a + (b + ("[" + l + c) + (end + w)) == a + ((b + "[" + l) + ((c + end) + w))
    ensures l == "" ==> a + ((b + "[" + l) + ((c + end) + w)) == a + (b + "[" + (c + end)) + w
  {
  }

  lemma SkipStrings(items: seq<string>, end: string, w: string, key: string)
    requires IsKey(key) && Quiet(Strings(items), key) && IsGap(end)
    ensures After("\"" + (":" + PrintValue(Strings(items)) + (end + w)), key) == After(w, key)
  {
    var l := Listing("", items);
    InBrackets("\"", ":", l, "]", end, w);
    assert ":" + "[" == ":[";
    if items == [] {
      SkipGap(":[" + ("]" + end), w, key);
    } else {
      ListingLed(":[", items);
      SkipListing(":[", items, "]" + end, w, key);
    }
  }

  lemma SkipValue(v: Value, end: string, w: string, key: string)
    requires IsKey(key) && Quiet(v, key) && IsGap(end)
    ensures After("\"" + (":" + PrintValue(v) + (end + w)), key) == After(w, key)
  {
    match v
    case Number(n) => SkipNumber(n, end, w, key);
    case Str(s) => SkipStr(s, end, w, key);
    case Strings(items) => SkipStrings(items, end, w, key);
  }

  predicate EndsValue(tail: string) {
    tail != "" && (tail[0] == ',' || tail[0] == '}')
  }

  /** The text of a field from the colon on, cut where its value ends. */
  function EndOf(more: Fields): string {
    if more.Done? then "}\n" else ","
  }

  function RestOf(more: Fields): string {
    if more.Done? then "" else PrintFields(more)
  }

  lemma FieldText(name: string, v: Value, more: Fields)
    ensures PrintFields(Field(name, v, more)) == Quote(name) + (":" + PrintValue(v) + (EndOf(more) + RestOf(more)))
  {
    assert "}\n" + "" == "}\n";
    Regroup(Quote(name), PrintValue(v), EndOf(more) + RestOf(more));
  }

  lemma Regroup(a: string, b: string, c: string)
    ensures a + ":" + b + c == a + (":" + b + c)
  {
  }

  lemma SkipField(name: string, v: Value, more: Fields, key: string)
    requires IsKey(key) && IsKey(name) && name != key && Quiet(v, key)
    ensures After(PrintFields(Field(name, v, more)), key) == After(RestOf(more), key)
  {
    FieldText(name, v, more);
    SkipString(name, ":" + PrintValue(v) + (EndOf(more) + RestOf(more)), key);
    SkipValue(v, EndOf(more), RestOf(more), key);
  }

  /** Looking for a key that no string comes before finds the field of that
      name, or nothing. */
  lemma {:induction false} AfterField(f: Fields, key: string) returns (tail: string)
    requires IsKey(key) && UnquotedFields(f) && QuietUntil(f, key)
    ensures FieldOf(f, key).None? ==> After(PrintFields(f), key) == None
    ensures FieldOf(f, key).Some? ==>
              After(PrintFields(f), key) == Some(":" + PrintValue(FieldOf(f, key).value) + tail) && EndsValue(tail)
    ensures FieldOf(f, key).Some? ==> |tail| >= 2 && (IsLast(f, key) ==> tail == "}\n")
  {
    match f
    case Done =>
      tail := "";
      assert PrintFields(f) == "}\n" + "";
      SkipPlain("}\n", "", key);
    case Field(name, v, more) =>
      if name == key {
        FieldText(name, v, more);
        tail := EndOf(more) + RestOf(more);
        KeyIsHere(":" + PrintValue(v) + tail, key);
      } else {
        SkipField(name, v, more, key);
        if more.Done? {
          tail := "";
          NothingInEmpty(key);
        } else {
          tail := AfterField(more, key);
        }
      }
  }

  /** What follows a string of a value, and not a name: a comma or the end of
      a list or of the object, where a name is followed by a colon. */
  predicate Misfound(found: Option<string>) {
    found.Some? && found.value != "" && (found.value[0] == ',' || found.value[0] == ']' || found.value[0] == '}')
  }

  lemma {:induction false} FoundInListing(lead: string, items: seq<string>, end: string, w: string, key: string)
    requires IsKey(key) && Unquoted(Strings(items)) && key in items && IsGap(lead) && IsGap(end) && end[0] == ']'
    ensures Misfound(After("\"" + (Listing(lead, items) + (end + w)), key))
    decreases |items|
  {
    var rest := Listing(",", items[1..]) + (end + w);
    assert "\"" + (Listing(lead, items) + (end + w)) == "\"" + lead + (Quote(items[0]) + rest);
    SkipGap(lead, Quote(items[0]) + rest, key);
    if items[0] == key {
      KeyIsHere(rest, key);
      ListingBegins(items[1..], end, w);
    } else {
      SkipString(items[0], rest, key);
      FoundInListing(",", items[1..], end, w, key);
    }
  }

  lemma ListingBegins(items: seq<string>, end: string, w: string)
    requires end != ""
    ensures var rest := Listing(",", items) + (end + w); rest != "" && rest[0] == if items == [] then end[0] else ','
  {
  }

  lemma FoundInValue(v: Value, end: string, w: string, key: string)
    requires IsKey(key) && Unquoted(v) && !Avoids(v, key) && IsGap(end) && (end[0] == ',' || end[0] == '}')
    ensures Misfound(After("\"" + (":" + PrintValue(v) + (end + w)), key))
  {
    match v
    case Number(n) =>
    case Str(s) =>
      assert "\"" + (":" + Quote(s) + (end + w)) == "\"" + ":" + (Quote(s) + (end + w));
      SkipGap(":", Quote(s) + (end + w), key);
      KeyIsHere(end + w, key);
    case Strings(items) =>
      var l := Listing("", items);
      ListingLed(":[", items);
      assert "\"" + (":" + ("[" + l + "]") + (end + w)) == "\"" + (Listing(":[", items) + (("]" + end) + w));
      FoundInListing(":[", items, "]" + end, w, key);
  }

  /** Looking for a key that some string comes before finds such a string. */
  lemma {:induction false} StringFirst(f: Fields, key: string)
    requires IsKey(key) && UnquotedFields(f) && !QuietUntil(f, key)
    ensures Misfound(After(PrintFields(f), key))
  {
    var name, v, more := f.name, f.value, f.more;
    if Avoids(v, key) {
      SkipField(name, v, more, key);
      StringFirst(more, key);
    } else {
      FieldText(name, v, more);
      SkipString(name, ":" + PrintValue(v) + (EndOf(more) + RestOf(more)), key);
      FoundInValue(v, EndOf(more), RestOf(more), key);
    }
  }

  lemma NothingInEmpty(key: string)
    ensures After("", key) == None
  {
  }

  // ---------------------------------------------------------------------
  // From fields to values
  // ---------------------------------------------------------------------

  /** Text that stands somewhere stands there piece by piece. */
  lemma Pieced(s: string, x: string, y: string, p: nat)
    requires StandsAt(s, x + y, p)
    ensures StandsAt(s, x, p) && StandsAt(s, y, p + |x|)
  {
    var t := s[p..p + |x + y|];
    assert t[..|x|] == x && t[|x|..] == y;
    assert t[..|x|] == s[p..p + |x|];
    assert t[|x|..] == s[p + |x|..p + |x| + |y|];
  }

  lemma PiecedInThree(s: string, x: string, y: string, z: string, p: nat)
    requires StandsAt(s, x + y + z, p)
    ensures StandsAt(s, x, p) && StandsAt(s, y, p + |x|) && StandsAt(s, z, p + |x| + |y|)
  {
    Pieced(s, x + y, z, p);
    Pieced(s, x, y, p);
  }

  /** A search passes over text that lacks what it looks for. */
  lemma PassesOver(s: string, c: char, p: nat, g: string)
    requires StandsAt(s, g, p) && Lacks(g, c)
    ensures IndexOf(s, c, p) == IndexOf(s, c, p + |g|)
  {
    forall i | p <= i < p + |g| ensures s[i] != c {
      assert s[i] == s[p..p + |g|][i - p] == g[i - p];
    }
    IndexOfIs(s, c, p, IndexOf(s, c, p + |g|));
  }

  /** A search from the start of `g` passes over it. */
  lemma Lands(s: string, c: char, p: nat, g: string)
    requires StandsAt(s, g, p) && Lacks(g, c) && StandsAt(s, [c], p + |g|)
    ensures IndexOf(s, c, p) == p + |g|
  {
    PassesOver(s, c, p, g);
    assert s[p + |g|] == s[p + |g|..p + |g| + 1][0];
  }

  /** A quoted string is read back. */
  lemma QuotedAt(json: string, x: string, p: nat)
    requires StandsAt(json, Quote(x), p) && NoQuote(x)
    ensures StandsAt(json, "\"", p)
    ensures IndexOf(json, '"', p + 1) == p + 1 + |x| < |json|
    ensures json[p + 1..p + 1 + |x|] == x
  {
    PiecedInThree(json, "\"", x, "\"", p);
    Lands(json, '"', p + 1, x);
  }

  /** Where a key and a value were found. */
  lemma AtKey(json: string, key: string, gap: string, v: string, tail: string) returns (k: nat, at: nat)
    requires After(json, key) == Some(gap + v + tail)
    ensures Find(json, Quote(key), 0) == Some(k) && StandsAt(json, Quote(key), k)
    ensures at == k + |key| + 2 + |gap| <= |json| && StandsAt(json, gap, k + |key| + 2)
    ensures StandsAt(json, v, at) && json[at..] == v + tail
  {
    FindMeaning(json, Quote(key), 0);
    k := Find(json, Quote(key), 0).value;
    var p := k + |key| + 2;
    at := p + |gap|;
    var w := gap + (v + tail);
    assert json[p..] == w && json[p..p + |w|] == w;
    Pieced(json, gap, v + tail, p);
    Pieced(json, v, tail, at);
    assert json[at..] == json[at..at + |v + tail|];
  }

  lemma ReadStr(json: string, key: string, s: string, tail: string)
    requires After(json, key) == Some(":" + Quote(s) + tail) && NoQuote(s)
    ensures ExtractString(json, key) == s
  {
    var q := Quote(s);
    var k, at := AtKey(json, key, ":", q, tail);
    Lands(json, '"', k + |key| + 2, ":");
    QuotedAt(json, s, at);
    StringBetween(json, key, k, at, at + 1 + |s|);
  }

  lemma StringBetween(json: string, key: string, k: nat, open: nat, close: nat)
    requires Find(json, Quote(key), 0) == Some(k) && k + |key| + 2 <= open < close < |json|
    requires IndexOf(json, '"', k + |key| + 2) == open && IndexOf(json, '"', open + 1) == close
    ensures ExtractString(json, key) == json[open + 1..close]
  {
  }

  lemma StringsBetween(json: string, key: string, k: nat, start: nat, end: nat)
    requires Find(json, Quote(key), 0) == Some(k) && k < start <= end < |json|
    requires IndexOf(json, '[', k) == start - 1 && IndexOf(json, ']', start - 1) == end
    ensures ExtractStrings(json, key) == QuotedBetween(json, start, end)
  {
  }

  lemma {:induction false} DigitsLead(d: string, tail: string)
    requires Decimal.AreDigits(d) && (tail == "" || EndsValue(tail))
    ensures LeadingDigits(d + tail) == d
  {
    if d == "" {
      assert d + tail == tail;
    } else {
      assert (d + tail)[1..] == d[1..] + tail;
      DigitsLead(d[1..], tail);
    }
  }

  lemma DigitsRead(n: nat, tail: string)
    requires (tail == "" || EndsValue(tail)) && n < TWO_64
    ensures ToUnsigned(Decimal.Print(n) + tail) == n
  {
    var d := Decimal.Print(n);
    assert (d + tail)[0] == d[0];
    DigitsLead(d, tail);
    Decimal.ReadPrint(n);
  }

  lemma ReadNumber(json: string, key: string, n: nat, tail: string)
    requires After(json, key) == Some(":" + PrintValue(Number(n)) + tail)
    requires (tail == "" || EndsValue(tail)) && n < TWO_64 && Lacks(key, ':')
    ensures ExtractUint64(json, key) == n
  {
    var k, at := AtKey(json, key, ":", Decimal.Print(n), tail);
    Lands(json, ':', k, Quote(key));
    DigitsRead(n, tail);
  }

  /** A list is read back between its brackets. */
  lemma {:induction false} ReadListing(json: string, p: nat, lead: string, items: seq<string>, end: nat)
    requires StandsAt(json, Listing(lead, items), p) && end == p + |Listing(lead, items)| < |json|
    requires NoQuote(lead) && forall i :: 0 <= i < |items| ==> NoQuote(items[i])
    ensures QuotedBetween(json, p, end) == items
    decreases |items|
  {
    if items != [] {
      var x, more := items[0], items[1..];
      var next := p + |lead| + |x| + 2;
      ReadItem(json, p, lead, x, Listing(",", more), next, end);
      ReadListing(json, next, ",", more, end);
      assert [x] + more == items;
    }
  }

  lemma ReadItem(json: string, p: nat, lead: string, x: string, rest: string, next: nat, end: nat)
    requires StandsAt(json, lead + Quote(x) + rest, p) && NoQuote(lead) && NoQuote(x)
    requires next == p + |lead| + |x| + 2 && end == next + |rest| < |json|
    ensures StandsAt(json, rest, next)
    ensures QuotedBetween(json, p, end) == [x] + QuotedBetween(json, next, end)
  {
    PiecedInThree(json, lead, Quote(x), rest, p);
    ReadPieces(json, p, lead, x, next, end);
  }

  lemma ReadPieces(json: string, p: nat, lead: string, x: string, next: nat, end: nat)
    requires StandsAt(json, lead, p) && StandsAt(json, Quote(x), p + |lead|) && NoQuote(lead) && NoQuote(x)
    requires p + |lead| + |x| + 2 == next <= end < |json|
    ensures QuotedBetween(json, p, end) == [x] + QuotedBetween(json, next, end)
  {
    QuotedAt(json, x, p + |lead|);
    Lands(json, '"', p, lead);
    OneMore(json, p, p + |lead|, x, next, end);
  }

  lemma {:induction false} ListingNoBracket(lead: string, items: seq<string>)
    requires Lacks(lead, ']') && forall i :: 0 <= i < |items| ==> Lacks(items[i], ']')
    ensures Lacks(Listing(lead, items), ']')
    decreases |items|
  {
    if items != [] {
      ListingNoBracket(",", items[1..]);
    }
  }

  lemma ReadStrings(json: string, key: string, gap: string, items: seq<string>, tail: string)
    requires After(json, key) == Some(gap + PrintValue(Strings(items)) + tail)
    requires forall i :: 0 <= i < |items| ==> NoQuote(items[i]) && Lacks(items[i], ']')
    requires Lacks(key, '[') && Lacks(gap, '[')
    ensures ExtractStrings(json, key) == items
  {
    ListingNoBracket("", items);
    var start, end := FindBrackets(json, key, gap, Listing("", items), tail);
    ReadListing(json, start, "", items, end);
  }

  lemma FindBrackets(json: string, key: string, gap: string, l: string, tail: string) returns (start: nat, end: nat)
    requires After(json, key) == Some(gap + ("[" + l + "]") + tail)
    requires Lacks(key, '[') && Lacks(gap, '[') && Lacks(l, ']')
    ensures StandsAt(json, l, start) && end == start + |l| < |json|
    ensures ExtractStrings(json, key) == QuotedBetween(json, start, end)
  {
    var k, at := AtKey(json, key, gap, "[" + l + "]", tail);
    start, end := at + 1, at + 1 + |l|;
    PiecedInThree(json, "[", l, "]", at);
    BracketsAt(json, key, k, gap, l, start, end);
    StringsBetween(json, key, k, start, end);
  }

  lemma BracketsAt(json: string, key: string, k: nat, gap: string, l: string, start: nat, end: nat)
    requires start == k + |key| + 3 + |gap| && end == start + |l|
    requires Lacks(key, '[') && Lacks(gap, '[') && Lacks(l, ']')
    requires StandsAt(json, Quote(key), k) && StandsAt(json, gap, k + |key| + 2) && StandsAt(json, "[", start - 1)
    requires StandsAt(json, l, start) && StandsAt(json, "]", end)
    ensures end < |json| && IndexOf(json, '[', k) == start - 1 && IndexOf(json, ']', start - 1) == end
  {
    PassesOver(json, '[', k, Quote(key));
    Lands(json, '[', k + |key| + 2, gap);
    PassesOver(json, ']', start - 1, "[");
    Lands(json, ']', start, l);
  }

  // ---------------------------------------------------------------------
  // The round trip
  // ---------------------------------------------------------------------

  lemma PlainIsUnquoted(r: Request)
    requires PlainRequest(r)
    ensures UnquotedFields(FieldsOf(r))
  {
    NamesAreKeys();
    AllUnquoted(r.suffixBlocks);
    AllUnquoted(r.exactBlocks);
    AllUnquoted(r.allowlist);
    var fields := OmitEmpty("allowlist", Strings(r.allowlist), Done);
    fields := OneMoreUnquoted("exact_blocks", Strings(r.exactBlocks), fields);
    fields := OneMoreUnquoted("suffix_blocks", Strings(r.suffixBlocks), fields);
    fields := OneMoreUnquoted("version_hash", Str(r.versionHash), fields);
    fields := OneMoreUnquoted("generation", Number(r.generation), fields);
  }

  lemma AllUnquoted(items: seq<string>)
    requires AllPlain(items)
    ensures Unquoted(Strings(items))
  {
    forall i | 0 <= i < |items| ensures NoQuote(items[i]) {
      assert PlainText(items[i]);
    }
  }

  lemma OneMoreUnquoted(name: string, v: Value, more: Fields) returns (fields: Fields)
    requires IsKey(name) && Unquoted(v) && UnquotedFields(more)
    ensures fields == OmitEmpty(name, v, more) && UnquotedFields(fields)
  {
    fields := OmitEmpty(name, v, more);
  }

  lemma NamesAreKeys()
    ensures IsKey("command") && IsKey("generation") && IsKey("version_hash")
    ensures IsKey("suffix_blocks") && IsKey("exact_blocks") && IsKey("allowlist")
  {
  }

  lemma NamesLack(key: string)
    requires key in FIELD_NAMES
    ensures Lacks(key, '[') && Lacks(key, ']') && Lacks(key, ':')
  {
  }

  /** Looking for a field name in a printed request finds that field, or nothing
      if it is omitted, exactly when no string before it is its name; otherwise
      it finds such a string. */
  lemma FieldFound(r: Request, key: string) returns (tail: string)
    requires PlainRequest(r) && key in FIELD_NAMES
    ensures QuietUntil(FieldsOf(r), key) <==> !Misfound(After(Print(r), key))
    ensures QuietUntil(FieldsOf(r), key) && FieldOf(FieldsOf(r), key).None? ==> After(Print(r), key) == None
    ensures QuietUntil(FieldsOf(r), key) && FieldOf(FieldsOf(r), key).Some? ==>
              After(Print(r), key) == Some(":" + PrintValue(FieldOf(FieldsOf(r), key).value) + tail) && EndsValue(tail)
    ensures QuietUntil(FieldsOf(r), key) && FieldOf(FieldsOf(r), key).Some? ==>
              |tail| >= 2 && (IsLast(FieldsOf(r), key) ==> tail == "}\n")
  {
    NamesAreKeys();
    PlainIsUnquoted(r);
    SkipPlain("{", PrintFields(FieldsOf(r)), key);
    if QuietUntil(FieldsOf(r), key) {
      tail := AfterField(FieldsOf(r), key);
    } else {
      tail := "";
      StringFirst(FieldsOf(r), key);
    }
  }

  function Present(v: Value): Option<Value> {
    if IsEmpty(v) then None else Some(v)
  }

  lemma FieldOfOmitEmpty(name: string, v: Value, more: Fields, key: string) returns (fields: Fields)
    ensures fields == OmitEmpty(name, v, more)
    ensures FieldOf(fields, key) == if name == key && !IsEmpty(v) then Some(v) else FieldOf(more, key)
  {
    fields := OmitEmpty(name, v, more);
  }

  lemma FieldsPresent(r: Request, key: string)
    ensures key == "command" ==> FieldOf(FieldsOf(r), key) == Some(Str(r.command))
    ensures key == "generation" ==> FieldOf(FieldsOf(r), key) == Present(Number(r.generation))
    ensures key == "version_hash" ==> FieldOf(FieldsOf(r), key) == Present(Str(r.versionHash))
    ensures key == "suffix_blocks" ==> FieldOf(FieldsOf(r), key) == Present(Strings(r.suffixBlocks))
    ensures key == "exact_blocks" ==> FieldOf(FieldsOf(r), key) == Present(Strings(r.exactBlocks))
    ensures key == "allowlist" ==> FieldOf(FieldsOf(r), key) == Present(Strings(r.allowlist))
  {
    var fields := FieldOfOmitEmpty("allowlist", Strings(r.allowlist), Done, key);
    fields := FieldOfOmitEmpty("exact_blocks", Strings(r.exactBlocks), fields, key);
    fields := FieldOfOmitEmpty("suffix_blocks", Strings(r.suffixBlocks), fields, key);
    fields := FieldOfOmitEmpty("version_hash", Str(r.versionHash), fields, key);
    fields := FieldOfOmitEmpty("generation", Number(r.generation), fields, key);
  }

  /** The field of a name can be told from the strings, as far as they matter to it. */
  predicate Findable(r: Request, key: string) {
    PlainRequest(r) && key in FIELD_NAMES && QuietUntil(FieldsOf(r), key)
  }

  lemma StrRecovered(r: Request, key: string, s: string)
    requires Findable(r, key) && PlainText(s)
    requires FieldOf(FieldsOf(r), key) == Some(Str(s)) || FieldOf(FieldsOf(r), key) == Present(Str(s))
    ensures ExtractString(Print(r), key) == s
  {
    var json := Print(r);
    var tail := FieldFound(r, key);
    if FieldOf(FieldsOf(r), key).Some? {
      ReadStr(json, key, s, tail);
    }
  }

  lemma NumberRecovered(r: Request, key: string, n: nat)
    requires Findable(r, key) && n < TWO_64
    requires FieldOf(FieldsOf(r), key) == Present(Number(n))
    ensures ExtractUint64(Print(r), key) == n
  {
    var json := Print(r);
    var tail := FieldFound(r, key);
    if n != 0 {
      ReadNumber(json, key, n, tail);
    }
  }

  /** No listed string holds the bracket that ends a list. */
  predicate Unbracketed(items: seq<string>) {
    forall i :: 0 <= i < |items| ==> Lacks(items[i], ']')
  }

  lemma StringsRecovered(r: Request, key: string, items: seq<string>)
    requires Findable(r, key) && AllPlain(items)
    requires FieldOf(FieldsOf(r), key) == Present(Strings(items))
    ensures ExtractStrings(Print(r), key) == items <==> Unbracketed(items)
  {
    ReadUnbracketed(Print(r), key);
    if Unbracketed(items) {
      UnbracketedRecovered(r, key, items);
    }
  }

  lemma UnbracketedRecovered(r: Request, key: string, items: seq<string>)
    requires Findable(r, key) && AllPlain(items) && Unbracketed(items)
    requires FieldOf(FieldsOf(r), key) == Present(Strings(items))
    ensures ExtractStrings(Print(r), key) == items
  {
    var tail := FieldFound(r, key);
    if items != [] {
      NamesLack(key);
      ListFound(Print(r), key, items, tail);
    }
  }

  lemma ListFound(json: string, key: string, items: seq<string>, tail: string)
    requires After(json, key) == Some(":" + PrintValue(Strings(items)) + tail)
    requires Lacks(key, '[') && AllPlain(items) && Unbracketed(items)
    ensures ExtractStrings(json, key) == items
  {
    AllUnquoted(items);
    ReadStrings(json, key, ":", items, tail);
  }

  /** Whatever the text, no string read from a list holds the bracket. */
  lemma ReadUnbracketed(json: string, key: string)
    ensures Unbracketed(ExtractStrings(json, key))
  {
    var k := Find(json, Quote(key), 0);
    if k.Some? {
      var start := IndexOf(json, '[', k.value);
      if start < |json| {
        var end := IndexOf(json, ']', start);
        if end < |json| {
          BetweenUnbracketed(json, start + 1, end);
        }
      }
    }
  }

  lemma {:induction false} BetweenUnbracketed(json: string, curr: nat, end: nat)
    requires end < |json| && forall i :: curr <= i < end ==> json[i] != ']'
    ensures Unbracketed(QuotedBetween(json, curr, end))
    decreases |json| - curr
  {
    if curr < end {
      var open := IndexOf(json, '"', curr);
      if open < end {
        var close := IndexOf(json, '"', open + 1);
        if close < end {
          BetweenUnbracketed(json, close + 1, end);
          SliceLacks(json, ']', open + 1, close);
        }
      }
    }
  }

  lemma SliceLacks(s: string, c: char, a: nat, b: nat)
    requires a <= b <= |s| && forall i :: a <= i < b ==> s[i] != c
    ensures Lacks(s[a..b], c)
  {
  }

  /** Every field of a request is read back from its text, where it can be found;
      a list exactly when no string in it holds its closing bracket. */
  lemma FieldRecovered(r: Request, key: string)
    requires Findable(r, key)
    ensures key == "command" ==> ExtractString(Print(r), key) == r.command
    ensures key == "generation" ==> ExtractUint64(Print(r), key) == r.generation
    ensures key == "version_hash" ==> ExtractString(Print(r), key) == r.versionHash
    ensures key == "suffix_blocks" ==>
              (ExtractStrings(Print(r), key) == r.suffixBlocks <==> Unbracketed(r.suffixBlocks))
    ensures key == "exact_blocks" ==> (ExtractStrings(Print(r), key) == r.exactBlocks <==> Unbracketed(r.exactBlocks))
    ensures key == "allowlist" ==> (ExtractStrings(Print(r), key) == r.allowlist <==> Unbracketed(r.allowlist))
  {
    FieldsPresent(r, key);
    if key == "command" {
      StrRecovered(r, key, r.command);
    } else if key == "generation" {
      NumberRecovered(r, key, r.generation);
    } else if key == "version_hash" {
      StrRecovered(r, key, r.versionHash);
    } else if key == "suffix_blocks" {
      StringsRecovered(r, key, r.suffixBlocks);
    } else if key == "exact_blocks" {
      StringsRecovered(r, key, r.exactBlocks);
    } else {
      StringsRecovered(r, key, r.allowlist);
    }
  }

  /** Every field can be found, and every list ends where it should. */
  predicate IsReadable(r: Request) {
    && (forall key {:trigger Findable(r, key)} :: key in FIELD_NAMES ==> Findable(r, key))
    && Unbracketed(r.suffixBlocks) && Unbracketed(r.exactBlocks) && Unbracketed(r.allowlist)
  }

  function Requested(r: Request): Policy {
    Policy(r.generation, r.versionHash, NumberedRules(r.suffixBlocks), Members(r.exactBlocks), Members(r.allowlist))
  }

  /** The candidate built from a printed request holds what was requested. */
  lemma RequestRoundTrip(r: Request)
    requires IsReadable(r)
    ensures CandidateOf(Print(r)) == Requested(r)
  {
    AllButAllowlist(r);
    FieldRecovered(r, "allowlist");
  }

  lemma AllButAllowlist(r: Request)
    requires forall key {:trigger Findable(r, key)} :: key in FIELD_NAMES && key != "allowlist" ==> Findable(r, key)
    requires Unbracketed(r.suffixBlocks) && Unbracketed(r.exactBlocks)
    ensures CandidateOf(Print(r)) == Requested(r).(allowlist := Members(ExtractStrings(Print(r), "allowlist")))
  {
    FieldRecovered(r, "generation");
    FieldRecovered(r, "version_hash");
    FieldRecovered(r, "suffix_blocks");
    FieldRecovered(r, "exact_blocks");
  }

  predicate Nameless(items: seq<string>) {
    forall i :: 0 <= i < |items| ==> items[i] !in FIELD_NAMES
  }

  /** A field can be found if no string at all is its name. */
  lemma AvoidedIsFindable(r: Request, key: string)
    requires PlainRequest(r) && key in FIELD_NAMES
    requires key !in r.suffixBlocks && key !in r.exactBlocks && key !in r.allowlist
    requires key != r.command && key != r.versionHash
    ensures Findable(r, key)
  {
    var fields := OneMoreQuiet("allowlist", Strings(r.allowlist), Done, key);
    fields := OneMoreQuiet("exact_blocks", Strings(r.exactBlocks), fields, key);
    fields := OneMoreQuiet("suffix_blocks", Strings(r.suffixBlocks), fields, key);
    fields := OneMoreQuiet("version_hash", Str(r.versionHash), fields, key);
    fields := OneMoreQuiet("generation", Number(r.generation), fields, key);
  }

  /** It is enough that no string is the name of a field. */
  lemma NamelessIsFindable(r: Request, key: string)
    requires PlainRequest(r) && key in FIELD_NAMES
    requires r.command !in FIELD_NAMES && r.versionHash !in FIELD_NAMES
    requires Nameless(r.suffixBlocks) && Nameless(r.exactBlocks) && Nameless(r.allowlist)
    ensures Findable(r, key)
  {
    AvoidedIsFindable(r, key);
  }

  lemma OneMoreQuiet(name: string, v: Value, more: Fields, key: string) returns (fields: Fields)
    requires Avoids(v, key) && QuietUntil(more, key)
    ensures fields == OmitEmpty(name, v, more) && QuietUntil(fields, key)
  {
    fields := OmitEmpty(name, v, more);
  }

  /** What the reference decision blocks: not allowed by name, and blocked by
      name or by a suffix, in any mix of upper and lower case. */
  ghost predicate Blocks(r: Request, name: string) {
    name !in r.allowlist
    && (name in r.exactBlocks
        || exists i :: 0 <= i < |r.suffixBlocks| && IsUnderSuffix(name, r.suffixBlocks[i]))
  }

  ghost predicate IsUnderSuffix(name: string, suffix: string) {
    Normalized(suffix) != "" && SameOrUnder(Normalized(name), Normalized(suffix))
  }

  /** Of the suffixes that cover a name, the one reported: it has the fewest
      labels, and it is the first listed of its name. */
  ghost predicate IsReported(suffixes: seq<string>, name: string, i: nat) {
    && i < |suffixes| && IsUnderSuffix(name, suffixes[i])
    && (forall m :: 0 <= m < |suffixes| && IsUnderSuffix(name, suffixes[m]) ==>
          Count(NameLabels(suffixes[i])) <= Count(NameLabels(suffixes[m])))
    && (forall m :: 0 <= m < i ==> Normalized(suffixes[m]) != Normalized(suffixes[i]))
  }

  lemma NumberedDecides(p: Policy, r: Request, name: string)
    requires p.suffixRules == NumberedRules(r.suffixBlocks)
    requires p.exactBlocks == Members(r.exactBlocks) && p.allowlist == Members(r.allowlist)
    ensures Allows(p, name) <==> !Blocks(r, name)
    ensures Blocks(r, name) ==> Evaluate(p, name).action == BlockNxDomain
    ensures Blocks(r, name) && name !in r.exactBlocks ==>
              exists i: nat :: IsReported(r.suffixBlocks, name, i) && Evaluate(p, name).ruleId == NumberOf(i)
  {
    EvaluateMeaning(p, name);
    forall i | 0 <= i < |r.suffixBlocks|
      ensures SuffixTrie.Covers(p.suffixRules[i], name) <==> IsUnderSuffix(name, r.suffixBlocks[i])
    {
      SuffixCovers(p.suffixRules[i], name);
    }
    if Evaluate(p, name).reason == "SUFFIX_TRIE_BLOCK" {
      var k: nat :|
        SuffixTrie.Reported(p.suffixRules, name, k) && Evaluate(p, name).ruleId == p.suffixRules[k].ruleId;
      ReportedListed(r.suffixBlocks, name, k);
    }
  }

  lemma ReportedListed(suffixes: seq<string>, name: string, k: nat)
    requires SuffixTrie.Reported(NumberedRules(suffixes), name, k)
    ensures IsReported(suffixes, name, k)
  {
    var rules := NumberedRules(suffixes);
    forall m | 0 <= m < |suffixes| ensures SuffixTrie.Covers(rules[m], name) <==> IsUnderSuffix(name, suffixes[m]) {
      SuffixCovers(rules[m], name);
    }
    forall m | 0 <= m < k ensures Normalized(suffixes[m]) != Normalized(suffixes[k]) {
      assert Normalized(rules[m].domain) != Normalized(rules[k].domain);
    }
  }

  lemma SuffixCovers(rule: SuffixTrie.Rule, name: string)
    ensures SuffixTrie.Covers(rule, name) <==> IsUnderSuffix(name, rule.domain)
  {
    NameLabelsAreLabels(rule.domain);
  }

  // ---------------------------------------------------------------------
  // What a listed field name may do
  // ---------------------------------------------------------------------

  lemma SkipOmitEmpty(name: string, v: Value, more: Fields, key: string) returns (fields: Fields)
    requires IsKey(key) && IsKey(name) && name != key && Quiet(v, key) && more.Field?
    ensures fields == OmitEmpty(name, v, more) && fields.Field?
    ensures After(PrintFields(fields), key) == After(PrintFields(more), key)
  {
    fields := OmitEmpty(name, v, more);
    if !IsEmpty(v) {
      SkipField(name, v, more, key);
    }
  }

  /** Looking for a key finds it inside a list, too. */
  lemma FoundInside(name: string, key: string, next: string)
    requires IsKey(name) && IsKey(key) && name != key
    ensures After(Quote(name) + ":" + ("[" + Quote(key) + "]") + ("," + next), key) == Some("]," + next)
  {
    var q, rest := Quote(key), "]," + next;
    var w := ":[" + (q + rest);
    assert Quote(name) + ":" + ("[" + q + "]") + ("," + next) == Quote(name) + w;
    SkipString(name, w, key);
    assert "\"" + w == "\"" + ":[" + (q + rest);
    SkipGap(":[", q + rest, key);
    KeyIsHere(rest, key);
  }

  lemma FoundInList(key: string, more: Fields)
    requires IsKey(key) && key != "suffix_blocks" && more.Field?
    ensures After(PrintFields(Field("suffix_blocks", Strings([key]), more)), key) == Some("]," + PrintFields(more))
  {
    assert Listing(",", [key][1..]) == "";
    assert Listing("", [key]) == Quote(key);
    FoundInside("suffix_blocks", key, PrintFields(more));
  }

  /** With the suffix "allowlist", the search for the allowlist ends there. */
  lemma AllowlistMissed(r: Request) returns (more: Fields)
    requires PlainRequest(r) && r.command != "allowlist" && r.versionHash != "allowlist"
    requires r.suffixBlocks == ["allowlist"] && r.exactBlocks != []
    ensures After(Print(r), "allowlist") ==
              Some("]," + PrintFields(Field("exact_blocks", Strings(r.exactBlocks), more)))
  {
    var key := "allowlist";
    more := OmitEmpty(key, Strings(r.allowlist), Done);
    var lists := Field("exact_blocks", Strings(r.exactBlocks), more);
    FoundInList(key, lists);
    SkipLeading(r, Field("suffix_blocks", Strings([key]), lists), key);
  }

  /** And the list printed next is read as the allowlist. */
  lemma AllowlistMisread(r: Request)
    requires PlainRequest(r) && Unbracketed(r.exactBlocks) && r.command != "allowlist" && r.versionHash != "allowlist"
    requires r.suffixBlocks == ["allowlist"] && r.exactBlocks != []
    ensures !Findable(r, "allowlist") && ExtractStrings(Print(r), "allowlist") == r.exactBlocks
  {
    var more := AllowlistMissed(r);
    NotFindable(r, "allowlist");
    NamesLack("allowlist");
    NamesLack("exact_blocks");
    NextListRead(Print(r), "allowlist", "exact_blocks", r.exactBlocks, more);
  }

  lemma NotFindable(r: Request, key: string)
    requires PlainRequest(r) && key in FIELD_NAMES && Misfound(After(Print(r), key))
    ensures !Findable(r, key)
  {
    var tail := FieldFound(r, key);
  }

  lemma SkipLeading(r: Request, lists: Fields, key: string)
    requires key == "allowlist" && Quiet(Str(r.command), key) && Quiet(Str(r.versionHash), key) && lists.Field?
    ensures After("{" + PrintFields(Leading(r, lists)), key) == After(PrintFields(lists), key)
  {
    NamesAreKeys();
    var fields := SkipOmitEmpty("version_hash", Str(r.versionHash), lists, key);
    fields := SkipOmitEmpty("generation", Number(r.generation), fields, key);
    SkipFirst("command", r.command, fields, key);
  }

  lemma SkipFirst(name: string, s: string, more: Fields, key: string)
    requires IsKey(key) && IsKey(name) && name != key && Quiet(Str(s), key) && more.Field?
    ensures After("{" + PrintFields(Field(name, Str(s), more)), key) == After(PrintFields(more), key)
  {
    SkipField(name, Str(s), more, key);
    SkipPlain("{", PrintFields(Field(name, Str(s), more)), key);
  }

  lemma NextListRead(json: string, key: string, name: string, items: seq<string>, more: Fields)
    requires After(json, key) == Some("]," + PrintFields(Field(name, Strings(items), more)))
    requires AllPlain(items) && Unbracketed(items) && Lacks(key, '[') && Lacks(name, '[')
    ensures ExtractStrings(json, key) == items
  {
    AllUnquoted(items);
    var v, tail := PrintValue(Strings(items)), EndOf(more) + RestOf(more);
    FieldText(name, Strings(items), more);
    GapBefore("],", Quote(name), v, tail);
    ReadStrings(json, key, "]," + Quote(name) + ":", items, tail);
  }

  lemma GapBefore(a: string, name: string, v: string, tail: string)
    ensures a + (name + (":" + v + tail)) == a + name + ":" + v + tail
  {
  }

  /** A field name as a listed string can turn a decision: names to be blocked
      exactly are allowed. */
  lemma FieldNameMisleads(r: Request, name: string)
    requires PlainRequest(r) && Unbracketed(r.exactBlocks) && r.command != "allowlist" && r.versionHash != "allowlist"
    requires r.suffixBlocks == ["allowlist"] && name in r.exactBlocks && name !in r.allowlist
    ensures Blocks(r, name) && Allows(CandidateOf(Print(r)), name)
  {
    AllowlistMisread(r);
  }

  /** It need not: the search for the allowlist ends in the wrong place, and
      comes upon the same names there. */
  lemma FieldNameMayAgree(r: Request)
    requires PlainRequest(r) && Unbracketed(r.exactBlocks) && Nameless(r.exactBlocks)
    requires r.command !in FIELD_NAMES && r.versionHash !in FIELD_NAMES
    requires r.suffixBlocks == ["allowlist"] && r.exactBlocks == r.allowlist != []
    ensures !Findable(r, "allowlist")
    ensures CandidateOf(Print(r)) == Requested(r)
  {
    AllowlistMisread(r);
    OthersAreFindable(r);
    NamesLack("allowlist");
    AllButOneName(r, "allowlist");
  }

  lemma AllButOneName(r: Request, name: string)
    requires forall key {:trigger Findable(r, key)} :: key in FIELD_NAMES && key != "allowlist" ==> Findable(r, key)
    requires r.suffixBlocks == [name] && Lacks(name, ']') && Unbracketed(r.exactBlocks)
    ensures CandidateOf(Print(r)) == Requested(r).(allowlist := Members(ExtractStrings(Print(r), "allowlist")))
  {
    AllButAllowlist(r);
  }

  lemma OthersAreFindable(r: Request)
    requires PlainRequest(r) && Nameless(r.exactBlocks) && Nameless(r.allowlist)
    requires r.command !in FIELD_NAMES && r.versionHash !in FIELD_NAMES
    requires r.suffixBlocks == ["allowlist"]
    ensures forall key {:trigger Findable(r, key)} :: key in FIELD_NAMES && key != "allowlist" ==> Findable(r, key)
  {
    forall key | key in FIELD_NAMES && key != "allowlist" ensures Findable(r, key) {
      AvoidedIsFindable(r, key);
    }
  }
}
