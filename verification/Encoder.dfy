/** The query encoder (`make_dns_query`, offline/benchmarks/runner.py), and its
    round trips with the parser. */
module Encoder {
  import opened Text
  import opened Wire
  import opened Names
  import opened Parser

  predicate IsAscii(s: string) {
    forall i :: 0 <= i < |s| ==> s[i] as int < 0x80
  }

  function Octets(s: string): (b: Bytes)
    requires IsAscii(s)
    ensures |b| == |s| && forall i :: 0 <= i < |s| ==> b[i] == s[i] as int
  {
    seq(|s|, i requires 0 <= i < |s| => s[i] as int)
  }

  /** Labels the encoder can write without raising an exception. */
  predicate Writable(ls: Labels) {
    ls.Label? ==> |ls.head| < 0x100 && IsAscii(ls.head) && Writable(ls.above)
  }

  function EncodeName(ls: Labels): Bytes
    requires Writable(ls)
  {
    match ls
    case Root => [0]
    case Label(head, above) => [|head|] + Octets(head) + EncodeName(above)
  }

  function QueryHeader(txid: int): Bytes {
    [txid / 0x100 % 0x100, txid % 0x100, 1, 0, 0, 1, 0, 0, 0, 0, 0, 0]
  }

  function QueryTail(qtype: int): Bytes {
    [qtype / 0x100 % 0x100, qtype % 0x100, 0, 1]
  }

  function Query(ls: Labels, txid: int, qtype: int): Bytes
    requires Writable(ls)
  {
    QueryHeader(txid) + EncodeName(ls) + QueryTail(qtype)
  }

  /** `str.strip('.')` */
  function StripDots(s: string): string
    decreases |s|
  {
    if s != "" && s[0] == '.' then StripDots(s[1..])
    else if s != "" && s[|s| - 1] == '.' then StripDots(s[..|s| - 1])
    else s
  }

  method MakeDnsQuery(domain: string, txid: int, qtype: int) returns (r: Option<Bytes>)
    ensures var ls := Pieces(StripDots(domain));
            r == if Writable(ls) then Some(Query(ls, txid, qtype)) else None
  {
    var pkt: Bytes := [txid / 0x100 % 0x100, txid % 0x100, 1, 0, 0, 1, 0, 0, 0, 0, 0, 0];
    var rest := Pieces(StripDots(domain));
    ghost var ls := rest;
    while rest.Label?
      invariant Writable(ls) <==> Writable(rest)
      invariant Writable(rest) ==> pkt + EncodeName(rest) == QueryHeader(txid) + EncodeName(ls)
      decreases rest
    {
      if |rest.head| >= 0x100 {
        return None; // ValueError: byte must be in range(0, 256)
      }
      if !IsAscii(rest.head) {
        return None; // UnicodeEncodeError
      }
      ghost var before := pkt;
      pkt := pkt + [|rest.head|];
      pkt := pkt + Octets(rest.head);
      assert Writable(rest) ==> pkt + EncodeName(rest.above) == before + EncodeName(rest);
      rest := rest.above;
    }
    pkt := pkt + [0];
    pkt := pkt + [qtype / 0x100 % 0x100, qtype % 0x100];
    pkt := pkt + [0, 1];
    assert pkt == QueryHeader(txid) + EncodeName(ls) + QueryTail(qtype);
    return Some(pkt);
  }

  /** Dots around a name are stripped, and nothing else is. */
  lemma {:induction false} DotsAreStripped(before: string, name: string, after: string)
    requires forall i :: 0 <= i < |before| ==> before[i] == '.'
    requires forall i :: 0 <= i < |after| ==> after[i] == '.'
    requires name != "" ==> name[0] != '.' && name[|name| - 1] != '.'
    ensures StripDots(before + name + after) == name
    decreases |before| + |after|
  {
    var s := before + name + after;
    if before != "" {
      assert s[0] == '.' && s[1..] == before[1..] + name + after;
      DotsAreStripped(before[1..], name, after);
    } else if after != "" {
      if name == "" {
        assert s == after + name + "" && s[0] == '.' && s[1..] == after[1..] + name + "";
        DotsAreStripped(after[1..], name, "");
      } else {
        assert s[0] == name[0] && s[|s| - 1] == '.' && s[..|s| - 1] == "" + name + after[..|after| - 1];
        DotsAreStripped("", name, after[..|after| - 1]);
      }
    } else {
      assert s == name;
    }
  }

  function Heads(ls: Labels): set<string> {
    if ls == Root then {} else {ls.head} + Heads(ls.above)
  }

  /** The encoder fails exactly for a label of more than 255 characters, or with
      a character that is not ASCII. */
  lemma {:induction false} WritableIsExact(ls: Labels)
    ensures Writable(ls) <==>
            forall x :: x in Heads(ls) ==> |x| <= 255 && forall i :: 0 <= i < |x| ==> x[i] as int <= 127
  {
    if ls.Label? {
      WritableIsExact(ls.above);
    }
  }

  // ---------------------------------------------------------------------
  // From a name to octets and back
  // ---------------------------------------------------------------------

  predicate IsPrintableText(s: string) {
    forall i :: 0 <= i < |s| ==> 32 <= s[i] as int && s[i] as int != 127
  }

  /** Labels of 1 to 63 printable ASCII characters. */
  predicate Ordinary(ls: Labels) {
    ls.Label? ==>
      1 <= |ls.head| <= 63 && IsAscii(ls.head) && IsPrintableText(ls.head) && Ordinary(ls.above)
  }

  /** A name the protocol can carry: ordinary labels, 1 to 253 characters. */
  predicate Queryable(ls: Labels) {
    ls.Label? && Ordinary(ls) && |Dotted(ls)| <= 253
  }

  function LowerLabels(ls: Labels): Labels {
    match ls
    case Root => Root
    case Label(head, above) => Label(Lower(head), LowerLabels(above))
  }

  ghost function ReadingOf(ls: Labels): Reading {
    match ls
    case Root => End
    case Label(head, above) => Piece(|head|, ReadingOf(above))
  }

  lemma {:induction false} LowerDotted(ls: Labels)
    ensures Dotted(LowerLabels(ls)) == Lower(Dotted(ls))
  {
    if ls.Label? && ls.above.Label? {
      LowerDotted(ls.above);
      assert Lower(ls.head + "." + Dotted(ls.above)) == Lower(ls.head) + "." + Lower(Dotted(ls.above));
    }
  }

  lemma {:induction false} OrdinaryIsWritable(ls: Labels)
    requires Ordinary(ls)
    ensures Writable(ls)
  {
    if ls.Label? { OrdinaryIsWritable(ls.above); }
  }

  lemma {:induction false} EncodedLength(ls: Labels)
    requires ls.Label? && Writable(ls)
    ensures |EncodeName(ls)| == |Dotted(ls)| + 2
  {
    if ls.above.Label? { EncodedLength(ls.above); }
  }

  /** The octets `e` stand in the buffer from `pos` on. */
  ghost predicate StandsAt(buf: Bytes, pos: nat, e: Bytes) {
    pos + |e| <= |buf| && forall i {:trigger e[i]} :: 0 <= i < |e| ==> buf[pos + i] == e[i]
  }

  lemma StandsInParts(buf: Bytes, pos: nat, a: Bytes, b: Bytes)
    requires StandsAt(buf, pos, a + b)
    ensures StandsAt(buf, pos, a) && StandsAt(buf, pos + |a|, b)
  {
    assert forall i :: 0 <= i < |a| ==> a[i] == (a + b)[i];
    assert forall i :: 0 <= i < |b| ==> b[i] == (a + b)[|a| + i];
  }

  lemma LabelStands(buf: Bytes, pos: nat, head: string, e: Bytes)
    requires IsAscii(head) && |head| < 0x100 && StandsAt(buf, pos, [|head|] + Octets(head) + e)
    ensures pos + 1 + |head| + |e| <= |buf| && buf[pos] == |head|
    ensures TextAt(buf, pos + 1, |head|) == Lower(head)
    ensures IsPrintableText(head) ==> PrintableAt(buf, pos + 1, |head|)
    ensures StandsAt(buf, pos + 1 + |head|, e)
  {
    var o := Octets(head);
    StandsInParts(buf, pos, [|head|] + o, e);
    StandsInParts(buf, pos, [|head|], o);
    assert buf[pos + 0] == [|head|][0];
    forall i | 0 <= i < |head| ensures buf[pos + 1 + i] == head[i] as int { assert o[i] == head[i] as int; }
    if IsPrintableText(head) {
      forall i | pos + 1 <= i < pos + 1 + |head| ensures IsPrintable(buf[i]) {
        assert buf[pos + 1 + (i - pos - 1)] == head[i - pos - 1] as int;
      }
    }
  }

  /** The labels, lowered, are what the octets from `pos` on spell, without pointers. */
  ghost predicate Spelt(buf: Bytes, pos: nat, ls: Labels) {
    var r := ReadingOf(ls);
    && Spells(buf, pos, r) && AllPrintable(buf, pos, r) && LabelsRead(buf, pos, r) == LowerLabels(ls)
    && Pointers(r) == 0 && FirstPointerBack(pos, r)
  }

  lemma LabelSpelt(buf: Bytes, pos: nat, head: string, above: Labels)
    requires 1 <= |head| <= 63 && pos + 1 + |head| <= |buf| && buf[pos] == |head|
    requires TextAt(buf, pos + 1, |head|) == Lower(head) && PrintableAt(buf, pos + 1, |head|)
    requires Spelt(buf, pos + 1 + |head|, above)
    ensures Spelt(buf, pos, Label(head, above))
  {
  }

  /** Encoded labels, wherever they stand, read back as themselves in lower case. */
  lemma {:induction false} EncodedIsSpelt(buf: Bytes, pos: nat, ls: Labels)
    requires Ordinary(ls) && Writable(ls) && StandsAt(buf, pos, EncodeName(ls))
    ensures Spelt(buf, pos, ls) && WireLength(ReadingOf(ls)) == |EncodeName(ls)|
    decreases ls
  {
    match ls
    case Root =>
      assert buf[pos + 0] == EncodeName(ls)[0];
    case Label(head, above) =>
      LabelStands(buf, pos, head, EncodeName(above));
      EncodedIsSpelt(buf, pos + 1 + |head|, above);
      LabelSpelt(buf, pos, head, above);
  }

  lemma ParseQuery(ls: Labels, txid: int, qtype: int, n: Decoded)
    requires Writable(ls) && |Query(ls, txid, qtype)| <= MAX_PAYLOAD
    requires DecodeAt(Query(ls, txid, qtype), HEADER_SIZE) == Ok(n)
    requires n.consumed == |EncodeName(ls)|
    ensures var p := Parse(Query(ls, txid, qtype));
            && p.Ok? && p.value.header.id == txid % 0x1_0000
            && p.value.question == Question(n.name, qtype % 0x1_0000, 1, |EncodeName(ls)| + 4)
  {
    var buf, m := Query(ls, txid, qtype), |EncodeName(ls)|;
    assert forall i :: 0 <= i < 12 ==> buf[i] == QueryHeader(txid)[i];
    assert forall i :: 0 <= i < 4 ==> buf[12 + m + i] == QueryTail(qtype)[i];
    WordOf(txid);
    WordOf(qtype);
    assert buf[12 + m + 0] == QueryTail(qtype)[0];
    assert buf[12 + m + 2] == 0 && buf[12 + m + 3] == 1;
  }

  lemma WordOf(x: int)
    ensures Word(x / 0x100 % 0x100, x % 0x100) == x % 0x1_0000
  {
  }

  lemma NameStands(ls: Labels, txid: int, qtype: int)
    requires Writable(ls)
    ensures StandsAt(Query(ls, txid, qtype), HEADER_SIZE, EncodeName(ls) + QueryTail(qtype))
    ensures StandsAt(Query(ls, txid, qtype), HEADER_SIZE, EncodeName(ls))
  {
    var e := EncodeName(ls) + QueryTail(qtype);
    assert Query(ls, txid, qtype) == QueryHeader(txid) + e;
    forall i | 0 <= i < |e| ensures Query(ls, txid, qtype)[12 + i] == e[i] {}
    StandsInParts(Query(ls, txid, qtype), 12, EncodeName(ls), QueryTail(qtype));
  }

  /** What a query for an ordinary name parses to. */
  lemma QueryParses(ls: Labels, txid: int, qtype: int)
    requires Queryable(ls)
    ensures Writable(ls)
    ensures var p := Parse(Query(ls, txid, qtype));
            && p.Ok? && p.value.header.id == txid % 0x1_0000
            && p.value.question ==
                 Question(Lower(Dotted(ls)), qtype % 0x1_0000, 1, |Query(ls, txid, qtype)| - HEADER_SIZE)
  {
    OrdinaryIsWritable(ls);
    EncodedLength(ls);
    var buf := Query(ls, txid, qtype);
    NameStands(ls, txid, qtype);
    EncodedIsSpelt(buf, 12, ls);
    LowerDotted(ls);
    var n := Decoded(Lower(Dotted(ls)), |EncodeName(ls)|);
    assert Accepts(buf, 12, ReadingOf(ls), n.name, n.consumed);
    DecodeIsReading(buf, 12, n.name, n.consumed);
    ParseQuery(ls, txid, qtype, n);
  }

  // ---------------------------------------------------------------------
  // Which names make the round trip
  // ---------------------------------------------------------------------

  predicate Short(ls: Labels) {
    ls.Label? ==> |ls.head| <= 63 && Short(ls.above)
  }

  predicate PrintableLabels(ls: Labels) {
    ls.Label? ==> IsPrintableText(ls.head) && PrintableLabels(ls.above)
  }

  lemma {:induction false} ReadIsShort(buf: Bytes, pos: nat, r: Reading)
    requires Spells(buf, pos, r)
    ensures Short(LabelsRead(buf, pos, r))
    ensures AllPrintable(buf, pos, r) ==> PrintableLabels(LabelsRead(buf, pos, r))
    decreases r
  {
    match r
    case End =>
    case Piece(len, rest) => ReadIsShort(buf, pos + 1 + len, rest);
    case Jump(to, rest) => ReadIsShort(buf, to, rest);
  }

  lemma {:induction false} PiecesOfShort(s: string)
    ensures |s| <= 63 ==> Short(Pieces(s))
    ensures IsPrintableText(s) ==> PrintableLabels(Pieces(s))
    decreases |s|
  {
    var d := IndexOf(s, '.', 0);
    if d < |s| { PiecesOfShort(s[d + 1..]); }
  }

  lemma {:induction false} AppendShort(a: Labels, b: Labels)
    ensures Short(Append(a, b)) <==> Short(a) && Short(b)
    ensures PrintableLabels(Append(a, b)) <==> PrintableLabels(a) && PrintableLabels(b)
  {
    if a.Label? { AppendShort(a.above, b); }
  }

  /** Labels stay short and printable when a dot within one of them splits it. */
  lemma {:induction false} PiecesOfDottedShort(ls: Labels)
    ensures Short(ls) ==> Short(Pieces(Dotted(ls)))
    ensures PrintableLabels(ls) ==> PrintableLabels(Pieces(Dotted(ls)))
  {
    match ls
    case Root => PiecesOfShort("");
    case Label(head, above) =>
      PiecesOfShort(head);
      if above.Label? {
        PiecesOfJoin(head, Dotted(above));
        PiecesOfDottedShort(above);
        AppendShort(Pieces(head), Pieces(Dotted(above)));
      }
  }

  lemma {:induction false} LowerLabelsFacts(ls: Labels)
    ensures Undotted(ls) ==> Undotted(LowerLabels(ls))
    ensures Short(LowerLabels(ls)) <==> Short(ls)
    ensures PrintableLabels(LowerLabels(ls)) <==> PrintableLabels(ls)
    ensures Count(LowerLabels(ls)) == Count(ls)
  {
    if ls.Label? {
      LowerLabelsFacts(ls.above);
      var low := Lower(ls.head);
      if Undotted(ls) {
        forall i | 0 <= i < |low| ensures low[i] != '.' { assert ls.head[i] in ls.head; }
      }
      if IsPrintableText(low) {
        forall i | 0 <= i < |ls.head| ensures 32 <= ls.head[i] as int && ls.head[i] as int != 127 {
          assert low[i] == ToLower(ls.head[i]);
        }
      }
    }
  }

  lemma {:induction false} OrdinaryByParts(ls: Labels)
    ensures Ordinary(ls) <==> Short(ls) && PrintableLabels(ls) && Writable(ls) && !HasEmpty(ls)
  {
    if ls.Label? { OrdinaryByParts(ls.above); }
  }

  /** The labels before the first empty one. */
  function BeforeEmpty(ls: Labels): Labels {
    if ls.Root? || ls.head == "" then Root else Label(ls.head, BeforeEmpty(ls.above))
  }

  lemma {:induction false} BeforeEmptyFacts(ls: Labels)
    ensures HasEmpty(ls) ==> Count(BeforeEmpty(ls)) < Count(ls)
    ensures Undotted(ls) ==> Undotted(BeforeEmpty(ls))
  {
    if ls.Label? { BeforeEmptyFacts(ls.above); }
  }

  /** An empty label is written as the zero octet that ends a name. */
  lemma {:induction false} EmptyLabelEnds(buf: Bytes, pos: nat, ls: Labels)
    requires Writable(ls) && Short(ls) && StandsAt(buf, pos, EncodeName(ls))
    ensures Spells(buf, pos, ReadingOf(BeforeEmpty(ls)))
    ensures LabelsRead(buf, pos, ReadingOf(BeforeEmpty(ls))) == LowerLabels(BeforeEmpty(ls))
    decreases ls
  {
    match ls
    case Root =>
      assert buf[pos + 0] == EncodeName(ls)[0];
    case Label(head, above) =>
      LabelStands(buf, pos, head, EncodeName(above));
      if head != "" { EmptyLabelEnds(buf, pos + 1 + |head|, above); }
  }

  /** A name that comes back as it was written is short and printable. */
  lemma CameBack(ls: Labels, buf: Bytes, r: Reading, name: string)
    requires ls.Label? && Undotted(ls) && name == Lower(Dotted(ls))
    requires Spells(buf, HEADER_SIZE, r) && AllPrintable(buf, HEADER_SIZE, r)
    requires name == Dotted(LabelsRead(buf, HEADER_SIZE, r))
    ensures Short(ls) && PrintableLabels(ls)
  {
    ReadIsShort(buf, HEADER_SIZE, r);
    PiecesOfDottedShort(LabelsRead(buf, HEADER_SIZE, r));
    LowerDotted(ls);
    LowerLabelsFacts(ls);
    PiecesOfDotted(LowerLabels(ls));
  }

  /** An empty label loses the rest of the name, or, where it is the only one,
      displaces the class. */
  lemma EmptyLabelSpoils(ls: Labels, txid: int, qtype: int)
    requires ls.Label? && Undotted(ls) && Writable(ls) && Short(ls) && HasEmpty(ls)
    ensures var p := Parse(Query(ls, txid, qtype));
            !(p.Ok? && p.value.question.qname == Lower(Dotted(ls)) && p.value.question.qclass == 1)
  {
    var buf := Query(ls, txid, qtype);
    var p := Parse(buf);
    if p.Ok? && p.value.question.qname == Lower(Dotted(ls)) {
      var n := DecodeAt(buf, HEADER_SIZE).value;
      DecodeIsReading(buf, HEADER_SIZE, n.name, n.consumed);
      var r :| Accepts(buf, HEADER_SIZE, r, n.name, n.consumed);
      var before := BeforeEmpty(ls);
      NameStands(ls, txid, qtype);
      EmptyLabelEnds(buf, HEADER_SIZE, ls);
      ReadingUnique(buf, HEADER_SIZE, r, ReadingOf(before));
      LowerDotted(ls);
      NothingBeforeEmpty(ls);
      assert EncodeName(ls) == [0, 0];
      assert buf[15] == QueryTail(qtype)[1] && buf[16] == QueryTail(qtype)[2];
    }
  }

  /** The labels before an empty one make another name, unless the empty one is all. */
  lemma NothingBeforeEmpty(ls: Labels)
    requires ls.Label? && Undotted(ls) && HasEmpty(ls)
    requires Dotted(LowerLabels(BeforeEmpty(ls))) == Dotted(LowerLabels(ls))
    ensures ls == Label("", Root)
  {
    var before := BeforeEmpty(ls);
    LowerLabelsFacts(ls);
    BeforeEmptyFacts(ls);
    LowerLabelsFacts(before);
    PiecesOfDotted(LowerLabels(ls));
    if before.Label? {
      PiecesOfDotted(LowerLabels(before));
    } else {
      assert Pieces("") == Label("", Root);
    }
  }

  /** The round trip: a query gives its name back in lower case, with the same
      id and type, class 1 and every octet after the header consumed, exactly
      when its labels are 1 to 63 printable characters and 253 characters in all. */
  lemma QueryRoundTrip(domain: string, txid: int, qtype: int)
    requires Writable(Pieces(StripDots(domain)))
    ensures var ls := Pieces(StripDots(domain));
            var p := Parse(Query(ls, txid, qtype));
            (p.Ok? && p.value.question.qname == Lower(StripDots(domain)) && p.value.question.qclass == 1)
            <==> Queryable(ls)
    ensures var ls := Pieces(StripDots(domain));
            var p := Parse(Query(ls, txid, qtype));
            Queryable(ls) ==>
              && p.Ok? && p.value.header.id == txid % 0x1_0000
              && p.value.question == Question(Lower(StripDots(domain)), qtype % 0x1_0000, 1,
                                              |Query(ls, txid, qtype)| - HEADER_SIZE)
  {
    var ls := Pieces(StripDots(domain));
    var buf := Query(ls, txid, qtype);
    DottedPieces(StripDots(domain));
    PiecesAreUndotted(StripDots(domain));
    if Queryable(ls) {
      QueryParses(ls, txid, qtype);
    }
    var p := Parse(buf);
    if p.Ok? && p.value.question.qname == Lower(Dotted(ls)) && p.value.question.qclass == 1 {
      var n := DecodeAt(buf, HEADER_SIZE).value;
      DecodeIsReading(buf, HEADER_SIZE, n.name, n.consumed);
      var r :| Accepts(buf, HEADER_SIZE, r, n.name, n.consumed);
      CameBack(ls, buf, r, n.name);
      OrdinaryByParts(ls);
      if HasEmpty(ls) { EmptyLabelSpoils(ls, txid, qtype); }
    }
  }

  // ---------------------------------------------------------------------
  // From octets to a name and back
  // ---------------------------------------------------------------------

  /** Octets with the letters A to Z lowered; label lengths are below them. */
  function LowerOctet(b: Byte): Byte {
    if 65 <= b <= 90 then b + 32 else b
  }

  function LowerOctets(b: Bytes): (r: Bytes)
    ensures |r| == |b| && forall i :: 0 <= i < |b| ==> r[i] == LowerOctet(b[i])
  {
    seq(|b|, i requires 0 <= i < |b| => LowerOctet(b[i]))
  }

  ghost predicate PointerFree(r: Reading) {
    Pointers(r) == 0
  }

  /** The labels read are those of a name in ASCII, none with a dot octet. */
  ghost predicate PlainLabels(ls: Labels) {
    Undotted(ls) && Writable(ls)
  }

  /** The octets `e` stand in the buffer from `pos` on, but for case. */
  ghost predicate StandsLowered(buf: Bytes, pos: nat, e: Bytes) {
    && pos + |e| <= |buf|
    && forall i {:trigger e[i]} :: 0 <= i < |e| ==> e[i] == LowerOctet(buf[pos + i])
  }

  lemma LabelStandsLowered(buf: Bytes, pos: nat, len: nat, e: Bytes)
    requires len <= 63 && pos + 1 + len <= |buf| && buf[pos] == len && IsAscii(TextAt(buf, pos + 1, len))
    requires StandsLowered(buf, pos + 1 + len, e)
    ensures StandsLowered(buf, pos, [len] + Octets(TextAt(buf, pos + 1, len)) + e)
  {
    var o := Octets(TextAt(buf, pos + 1, len));
    forall i | 0 <= i < |[len] + o + e| ensures ([len] + o + e)[i] == LowerOctet(buf[pos + i]) {
      if 1 <= i <= len {
        assert o[i - 1] == LowerOctet(buf[pos + 1 + (i - 1)]);
      } else if i > len {
        assert e[i - 1 - len] == LowerOctet(buf[pos + 1 + len + (i - 1 - len)]);
      }
    }
  }

  lemma {:induction false} ReadEncodesBack(buf: Bytes, pos: nat, r: Reading)
    requires Spells(buf, pos, r) && PointerFree(r) && PlainLabels(LabelsRead(buf, pos, r))
    ensures StandsLowered(buf, pos, EncodeName(LabelsRead(buf, pos, r)))
    ensures |EncodeName(LabelsRead(buf, pos, r))| == WireLength(r)
    decreases r
  {
    match r
    case End =>
    case Piece(len, rest) =>
      ReadEncodesBack(buf, pos + 1 + len, rest);
      LabelStandsLowered(buf, pos, len, EncodeName(LabelsRead(buf, pos + 1 + len, rest)));
  }

  /** Octets that encode labels, and a reading of them: the labels are those read. */
  lemma {:induction false} EncodedIsRead(buf: Bytes, pos: nat, r: Reading, ls: Labels)
    requires Spells(buf, pos, r) && PointerFree(r) && Writable(ls)
    requires StandsLowered(buf, pos, EncodeName(ls)) && |EncodeName(ls)| == WireLength(r)
    ensures LabelsRead(buf, pos, r) == ls
    decreases r
  {
    FirstOctet(ls);
    assert EncodeName(ls)[0] == LowerOctet(buf[pos + 0]);
    match r
    case End =>
      assert ls == Root;
    case Piece(len, rest) =>
      LengthIsNoLetter(len);
      LabelRead(buf, pos, len, ls);
      EncodedIsRead(buf, pos + 1 + len, rest, ls.above);
  }

  lemma LengthIsNoLetter(len: nat)
    requires len <= 63
    ensures LowerOctet(len) == len
  {
  }

  lemma FirstOctet(ls: Labels)
    requires Writable(ls)
    ensures |EncodeName(ls)| >= 1 && EncodeName(ls)[0] == (if ls.Root? then 0 else |ls.head|)
    ensures ls.Label? ==> |EncodeName(ls)| >= 2
  {
    if ls.Label? {
      FirstOctet(ls.above);
    }
  }

  lemma LabelRead(buf: Bytes, pos: nat, len: nat, ls: Labels)
    requires Writable(ls) && pos + 1 + len <= |buf| && 1 <= len <= 63
    requires StandsLowered(buf, pos, EncodeName(ls)) && EncodeName(ls)[0] == len
    ensures ls.Label? && |ls.head| == len && TextAt(buf, pos + 1, len) == ls.head
    ensures StandsLowered(buf, pos + 1 + len, EncodeName(ls.above))
    ensures |EncodeName(ls)| == 1 + len + |EncodeName(ls.above)|
  {
    FirstOctet(ls);
    var e, o, above := EncodeName(ls), Octets(ls.head), EncodeName(ls.above);
    assert e == [len] + o + above;
    forall i | 0 <= i < len ensures TextAt(buf, pos + 1, len)[i] == ls.head[i] {
      assert e[1 + i] == o[i] == ls.head[i] as int;
      assert e[1 + i] == LowerOctet(buf[pos + (1 + i)]);
    }
    forall i | 0 <= i < |above| ensures above[i] == LowerOctet(buf[pos + 1 + len + i]) {
      assert e[1 + len + i] == above[i];
      assert e[1 + len + i] == LowerOctet(buf[pos + (1 + len + i)]);
    }
  }

  /** Encoding the name of an accepted question without pointers gives the
      octets of the question's name in lower case exactly when it has labels, in
      ASCII and none with a dot octet. */
  lemma NameRoundTrip(buf: Bytes, r: Reading)
    requires Parse(buf).Ok? && Spells(buf, HEADER_SIZE, r) && PointerFree(r)
    ensures EncodesBack(buf) <==> r.Piece? && PlainLabels(LabelsRead(buf, HEADER_SIZE, r))
  {
    var q := Parse(buf).value.question;
    var r' := QuestionReading(buf);
    ReadingUnique(buf, HEADER_SIZE, r, r');
    var ls := LabelsRead(buf, HEADER_SIZE, r);
    if r.Piece? && PlainLabels(ls) {
      PiecesOfDotted(ls);
      ReadEncodesBack(buf, HEADER_SIZE, r);
      WireIsLowered(buf, EncodeName(ls));
    }
    if EncodesBack(buf) {
      var e := EncodeName(Pieces(q.qname));
      LoweredStands(buf, e, q.wireBytes - 4);
      EncodedIsRead(buf, HEADER_SIZE, r, Pieces(q.qname));
      PiecesAreUndotted(q.qname);
    }
  }

  /** The octets of an accepted question's name. */
  function WireName(buf: Bytes): Bytes
    requires Parse(buf).Ok? && Parse(buf).value.question.wireBytes >= 4
  {
    buf[HEADER_SIZE..HEADER_SIZE + Parse(buf).value.question.wireBytes - 4]
  }

  /** The name encodes to its own octets in lower case. */
  predicate EncodesBack(buf: Bytes)
    requires Parse(buf).Ok?
  {
    var q := Parse(buf).value.question;
    q.wireBytes >= 4 && Writable(Pieces(q.qname)) && EncodeName(Pieces(q.qname)) == LowerOctets(WireName(buf))
  }

  lemma WireIsLowered(buf: Bytes, e: Bytes)
    requires StandsLowered(buf, HEADER_SIZE, e)
    ensures LowerOctets(buf[HEADER_SIZE..HEADER_SIZE + |e|]) == e
  {
    var wire := buf[HEADER_SIZE..HEADER_SIZE + |e|];
    forall i | 0 <= i < |e| ensures LowerOctets(wire)[i] == e[i] {
      assert wire[i] == buf[HEADER_SIZE + i];
    }
  }

  lemma LoweredStands(buf: Bytes, e: Bytes, n: nat)
    requires HEADER_SIZE + n <= |buf| && e == LowerOctets(buf[HEADER_SIZE..HEADER_SIZE + n])
    ensures StandsLowered(buf, HEADER_SIZE, e) && |e| == n
  {
    forall i | 0 <= i < |e| ensures e[i] == LowerOctet(buf[HEADER_SIZE + i]) {
      assert buf[HEADER_SIZE..HEADER_SIZE + n][i] == buf[HEADER_SIZE + i];
    }
  }
}
