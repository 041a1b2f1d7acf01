/** Decoding of names and questions (dataplane/src/dns/parser.cpp).

    The loop of `decode_name` is proved equal to a recursive function, and that
    function to a reading of section 4.1.4 of RFC 1035: a name is a finite
    derivation of labels and pointers that ends in a zero octet. */
module Parser {
  import opened Text
  import opened Wire
  import opened Names

  /** Octets as the lowered characters of a C++ string. */
  function TextAt(buf: Bytes, from: nat, len: nat): (s: string)
    requires from + len <= |buf|
    ensures |s| == len && forall i :: 0 <= i < len ==> s[i] == ToLower(buf[from + i] as char)
  {
    seq(len, i requires 0 <= i < len => ToLower(buf[from + i] as char))
  }

  predicate IsPrintable(b: Byte) {
    b >= 32 && b != 127
  }

  predicate PrintableAt(buf: Bytes, from: nat, len: nat)
    requires from + len <= |buf|
  {
    forall i :: from <= i < from + len ==> IsPrintable(buf[i])
  }

  /** The 14-bit offset of a compression pointer. */
  function Target(hi: Byte, lo: Byte): nat
    requires hi >= 0xC0
  {
    (hi - 0xC0) * 0x100 + lo
  }

  /** It is what the source's mask, shift and or give. */
  lemma TargetBits(high: bv8, low: bv8)
    requires high >= 0xC0
    ensures Target(high as int, low as int) == ((((high & 0x3F) as bv16) << 8) | low as bv16) as int
  {
    ShiftedOctets(high, low);
  }

  // ---------------------------------------------------------------------
  // The recursive function
  // ---------------------------------------------------------------------

  /** A name, and the octets it takes where it stands. */
  datatype Decoded = Decoded(name: string, consumed: nat)

  function AppendLabel(name: string, piece: string): string {
    (if name == "" then "" else name + ".") + piece
  }

  function AddConsumed(r: Result<Decoded>, n: nat): Result<Decoded> {
    if r.Ok? then Ok(Decoded(r.value.name, r.value.consumed + n)) else r
  }

  /** Where the pointer at `pos` leads, if it may be followed. */
  function PointerAt(buf: Bytes, pos: nat, jumped: bool, depth: nat): (r: Result<nat>)
    requires pos < |buf| && buf[pos] >= 0xC0
    ensures r.Ok? ==> depth < MAX_POINTERS && r.value < |buf|
  {
    if pos + 1 >= |buf| then Err(PointerOutOfBounds)
    else if depth + 1 > MAX_POINTERS then Err(PointerLoopDetected)
    else
      var to := Target(buf[pos], buf[pos + 1]);
      if to >= |buf| then Err(PointerOutOfBounds)
      else if to >= pos && !jumped then Err(PointerLoopDetected)
      else Ok(to)
  }

  /** The name with the label at `pos`, if that is one. */
  function WithLabelAt(buf: Bytes, pos: nat, name: string): (r: Result<string>)
    requires pos < |buf|
    ensures r.Ok? ==> pos + 1 + buf[pos] <= |buf| && |r.value| <= MAX_NAME
  {
    var len := buf[pos];
    if len >= 0x40 then Err(InvalidLabelLength)
    else if pos + 1 + len > |buf| then Err(PointerOutOfBounds)
    else if !PrintableAt(buf, pos + 1, len) then Err(InvalidLabelLength)
    else
      var name' := AppendLabel(name, TextAt(buf, pos + 1, len));
      if |name'| > MAX_NAME then Err(NameTooLong) else Ok(name')
  }

  /** The name found from `pos` on, after `depth` pointers and the labels in
      `name`, and the octets it takes up to its end or its first pointer. */
  function Decode(buf: Bytes, pos: nat, jumped: bool, depth: nat, name: string): Result<Decoded>
    requires depth <= MAX_POINTERS
    decreases MAX_POINTERS - depth, |buf| - pos
  {
    if pos >= |buf| then Err(PointerOutOfBounds)
    else if buf[pos] == 0 then Ok(Decoded(name, if jumped then 0 else 1))
    else if buf[pos] >= 0xC0 then
      var to := PointerAt(buf, pos, jumped, depth);
      if to.Err? then Err(to.error)
      else AddConsumed(Decode(buf, to.value, true, depth + 1, name), if jumped then 0 else 2)
    else
      var name' := WithLabelAt(buf, pos, name);
      if name'.Err? then Err(name'.error)
      else AddConsumed(Decode(buf, pos + 1 + buf[pos], jumped, depth, name'.value), if jumped then 0 else 1 + buf[pos])
  }

  function DecodeAt(buf: Bytes, offset: nat): Result<Decoded> {
    Decode(buf, offset, false, 0, "")
  }

  lemma AddNothing(r: Result<Decoded>)
    ensures AddConsumed(r, 0) == r
  {
  }

  lemma LabelTurn(buf: Bytes, pos: nat, jumped: bool, depth: nat, name: string, before: nat)
    requires depth <= MAX_POINTERS && pos < |buf| && 0 < buf[pos] < 0xC0
    ensures var name' := WithLabelAt(buf, pos, name);
            AddConsumed(Decode(buf, pos, jumped, depth, name), before) ==
              if name'.Err? then Err(name'.error)
              else AddConsumed(Decode(buf, pos + 1 + buf[pos], jumped, depth, name'.value),
                               before + if jumped then 0 else 1 + buf[pos])
  {
  }

  lemma PointerTurn(buf: Bytes, pos: nat, jumped: bool, depth: nat, name: string, before: nat)
    requires depth <= MAX_POINTERS && pos < |buf| && buf[pos] >= 0xC0
    ensures var to := PointerAt(buf, pos, jumped, depth);
            AddConsumed(Decode(buf, pos, jumped, depth, name), before) ==
              if to.Err? then Err(to.error)
              else AddConsumed(Decode(buf, to.value, true, depth + 1, name), before + if jumped then 0 else 2)
  {
  }

  lemma LastTurn(buf: Bytes, pos: nat, jumped: bool, depth: nat, name: string, before: nat)
    requires depth <= MAX_POINTERS && (pos >= |buf| || buf[pos] == 0)
    ensures AddConsumed(Decode(buf, pos, jumped, depth, name), before) ==
              if pos >= |buf| then Err(PointerOutOfBounds)
              else Ok(Decoded(name, before + if jumped then 0 else 1))
  {
  }

  // ---------------------------------------------------------------------
  // The reading
  // ---------------------------------------------------------------------

  /** How a name is spelt: labels of so many octets, and pointers. Being finite,
      a reading has no cycle. */
  datatype Reading =
    | End
    | Piece(len: nat, rest: Reading)
    | Jump(to: nat, rest: Reading)

  /** The octets at `pos` are spelt that way. */
  ghost predicate Spells(buf: Bytes, pos: nat, r: Reading)
    decreases r
  {
    match r
    case End => pos < |buf| && buf[pos] == 0
    case Piece(len, rest) =>
      1 <= len <= 63 && pos + 1 + len <= |buf| && buf[pos] == len && Spells(buf, pos + 1 + len, rest)
    case Jump(to, rest) =>
      && pos + 1 < |buf| && buf[pos] >= 0xC0
      && to == Target(buf[pos], buf[pos + 1]) && Spells(buf, to, rest)
  }

  ghost function Pointers(r: Reading): nat {
    match r
    case End => 0
    case Piece(_, rest) => Pointers(rest)
    case Jump(_, rest) => 1 + Pointers(rest)
  }

  /** The first pointer, if any, points strictly backward. */
  ghost predicate FirstPointerBack(pos: nat, r: Reading)
    decreases r
  {
    match r
    case End => true
    case Piece(len, rest) => FirstPointerBack(pos + 1 + len, rest)
    case Jump(to, _) => to < pos
  }

  ghost function LabelsRead(buf: Bytes, pos: nat, r: Reading): Labels
    requires Spells(buf, pos, r)
    decreases r
  {
    match r
    case End => Root
    case Piece(len, rest) =>
      Label(TextAt(buf, pos + 1, len), LabelsRead(buf, pos + 1 + len, rest))
    case Jump(to, rest) => LabelsRead(buf, to, rest)
  }

  ghost predicate AllPrintable(buf: Bytes, pos: nat, r: Reading)
    requires Spells(buf, pos, r)
    decreases r
  {
    match r
    case End => true
    case Piece(len, rest) =>
      && (forall i :: pos + 1 <= i < pos + 1 + len ==> 32 <= buf[i] && buf[i] != 127)
      && AllPrintable(buf, pos + 1 + len, rest)
    case Jump(to, rest) => AllPrintable(buf, to, rest)
  }

  /** The octets up to the end or the first pointer, both included. */
  ghost function WireLength(r: Reading): nat {
    match r
    case End => 1
    case Piece(len, rest) => 1 + len + WireLength(rest)
    case Jump(_, _) => 2
  }

  /** What `decode_name` accepts, and what it then returns. */
  ghost predicate Accepts(buf: Bytes, pos: nat, r: Reading, name: string, consumed: nat) {
    && Spells(buf, pos, r)
    && Pointers(r) <= 8 && FirstPointerBack(pos, r)
    && AllPrintable(buf, pos, r)
    && name == Dotted(LabelsRead(buf, pos, r)) && |name| <= 253
    && consumed == WireLength(r)
  }

  /** A name continued with more labels. */
  function Continue(name: string, ls: Labels): string {
    if ls == Root then name else if name == "" then Dotted(ls) else name + "." + Dotted(ls)
  }

  lemma ContinueStep(name: string, piece: string, ls: Labels)
    requires piece != ""
    ensures Continue(AppendLabel(name, piece), ls) == Continue(name, Label(piece, ls))
    ensures |AppendLabel(name, piece)| <= |Continue(name, Label(piece, ls))|
  {
  }

  /** The walk from `pos`, taken with what came before, ends well by this reading. */
  ghost predicate ReadAs(buf: Bytes, pos: nat, jumped: bool, depth: nat, name: string, r: Reading, d: Decoded) {
    && Spells(buf, pos, r) && AllPrintable(buf, pos, r)
    && depth + Pointers(r) <= MAX_POINTERS && (jumped || FirstPointerBack(pos, r))
    && d.name == Continue(name, LabelsRead(buf, pos, r)) && |d.name| <= MAX_NAME
    && d.consumed == if jumped then 0 else WireLength(r)
  }

  lemma LabelReadAs(buf: Bytes, pos: nat, jumped: bool, depth: nat, name: string, r: Reading, d: Decoded)
    requires pos < |buf| && 0 < buf[pos] < 0x40 && pos + 1 + buf[pos] <= |buf|
    requires PrintableAt(buf, pos + 1, buf[pos])
    ensures var longer := AppendLabel(name, TextAt(buf, pos + 1, buf[pos]));
            ReadAs(buf, pos + 1 + buf[pos], jumped, depth, longer, r, d) <==>
            ReadAs(buf, pos, jumped, depth, name, Piece(buf[pos], r),
                   Decoded(d.name, d.consumed + if jumped then 0 else 1 + buf[pos]))
  {
    var next, piece := pos + 1 + buf[pos], TextAt(buf, pos + 1, buf[pos]);
    if Spells(buf, next, r) {
      var ls := LabelsRead(buf, next, r);
      ContinueStep(name, piece, ls);
      PieceFacts(buf, pos, buf[pos], r);
      assert Continue(AppendLabel(name, piece), ls) == Continue(name, LabelsRead(buf, pos, Piece(buf[pos], r)));
    }
  }

  /** What a reading says of its first label. */
  lemma PieceFacts(buf: Bytes, pos: nat, len: nat, r: Reading)
    requires pos < |buf| && 0 < len < 0x40 && pos + 1 + len <= |buf| && buf[pos] == len
    requires PrintableAt(buf, pos + 1, len) && Spells(buf, pos + 1 + len, r)
    ensures Spells(buf, pos, Piece(len, r))
    ensures LabelsRead(buf, pos, Piece(len, r)) == Label(TextAt(buf, pos + 1, len), LabelsRead(buf, pos + 1 + len, r))
    ensures AllPrintable(buf, pos, Piece(len, r)) <==> AllPrintable(buf, pos + 1 + len, r)
    ensures FirstPointerBack(pos, Piece(len, r)) <==> FirstPointerBack(pos + 1 + len, r)
    ensures Pointers(Piece(len, r)) == Pointers(r) && WireLength(Piece(len, r)) == 1 + len + WireLength(r)
  {
  }

  lemma PointerReadAs(buf: Bytes, pos: nat, jumped: bool, depth: nat, name: string, to: nat, r: Reading, d: Decoded)
    requires pos + 1 < |buf| && buf[pos] >= 0xC0 && to == Target(buf[pos], buf[pos + 1]) && (jumped || to < pos)
    ensures ReadAs(buf, to, true, depth + 1, name, r, d) && d.consumed == 0 <==>
            ReadAs(buf, pos, jumped, depth, name, Jump(to, r),
                   Decoded(d.name, d.consumed + if jumped then 0 else 2))
  {
  }

  lemma {:induction false} DecodeGivesReading(buf: Bytes, pos: nat, jumped: bool, depth: nat, name: string)
    returns (r: Reading)
    requires depth <= MAX_POINTERS && |name| <= MAX_NAME && Decode(buf, pos, jumped, depth, name).Ok?
    ensures ReadAs(buf, pos, jumped, depth, name, r, Decode(buf, pos, jumped, depth, name).value)
    decreases MAX_POINTERS - depth, |buf| - pos
  {
    if buf[pos] == 0 {
      r := End;
    } else if buf[pos] >= 0xC0 {
      var to := PointerGivesMore(buf, pos, jumped, depth, name);
      var rest := DecodeGivesReading(buf, to, true, depth + 1, name);
      r := Jump(to, rest);
      PointerReadAs(buf, pos, jumped, depth, name, to, rest, Decode(buf, to, true, depth + 1, name).value);
    } else {
      var longer := LabelGivesMore(buf, pos, jumped, depth, name);
      var rest := DecodeGivesReading(buf, pos + 1 + buf[pos], jumped, depth, longer);
      r := Piece(buf[pos], rest);
      LabelReadAs(buf, pos, jumped, depth, name, rest, Decode(buf, pos + 1 + buf[pos], jumped, depth, longer).value);
    }
  }

  lemma PointerGivesMore(buf: Bytes, pos: nat, jumped: bool, depth: nat, name: string) returns (to: nat)
    requires depth <= MAX_POINTERS && Decode(buf, pos, jumped, depth, name).Ok? && buf[pos] >= 0xC0
    ensures depth < MAX_POINTERS && pos + 1 < |buf| && to == Target(buf[pos], buf[pos + 1]) && (jumped || to < pos)
    ensures Decode(buf, to, true, depth + 1, name).Ok?
    ensures Decode(buf, pos, jumped, depth, name).value
            == var d := Decode(buf, to, true, depth + 1, name).value;
               Decoded(d.name, d.consumed + if jumped then 0 else 2)
  {
    PointerTurn(buf, pos, jumped, depth, name, 0);
    to := Target(buf[pos], buf[pos + 1]);
  }

  lemma LabelGivesMore(buf: Bytes, pos: nat, jumped: bool, depth: nat, name: string) returns (longer: string)
    requires depth <= MAX_POINTERS && Decode(buf, pos, jumped, depth, name).Ok? && 0 < buf[pos] < 0xC0
    ensures buf[pos] < 0x40 && pos + 1 + buf[pos] <= |buf| && PrintableAt(buf, pos + 1, buf[pos])
    ensures longer == AppendLabel(name, TextAt(buf, pos + 1, buf[pos])) && |longer| <= MAX_NAME
    ensures Decode(buf, pos + 1 + buf[pos], jumped, depth, longer).Ok?
    ensures Decode(buf, pos, jumped, depth, name).value
            == var d := Decode(buf, pos + 1 + buf[pos], jumped, depth, longer).value;
               Decoded(d.name, d.consumed + if jumped then 0 else 1 + buf[pos])
  {
    LabelTurn(buf, pos, jumped, depth, name, 0);
    longer := WithLabelAt(buf, pos, name).value;
  }

  lemma {:induction false} ReadingGivesDecode(buf: Bytes, pos: nat, jumped: bool, depth: nat, name: string, r: Reading,
                                              d: Decoded)
    requires ReadAs(buf, pos, jumped, depth, name, r, d)
    ensures Decode(buf, pos, jumped, depth, name) == Ok(d)
    decreases r
  {
    match r
    case End => LastTurn(buf, pos, jumped, depth, name, 0);
    case Piece(len, rest) =>
      var longer, d' := ReadingGivesLabel(buf, pos, jumped, depth, name, rest, d);
      ReadingGivesDecode(buf, pos + 1 + len, jumped, depth, longer, rest, d');
    case Jump(to, rest) =>
      var d' := ReadingGivesPointer(buf, pos, jumped, depth, name, to, rest, d);
      ReadingGivesDecode(buf, to, true, depth + 1, name, rest, d');
  }

  lemma ReadingGivesLabel(buf: Bytes, pos: nat, jumped: bool, depth: nat, name: string, rest: Reading, d: Decoded)
    returns (longer: string, d': Decoded)
    requires pos < |buf| && 0 < buf[pos] && ReadAs(buf, pos, jumped, depth, name, Piece(buf[pos], rest), d)
    ensures ReadAs(buf, pos + 1 + buf[pos], jumped, depth, longer, rest, d')
    ensures Decode(buf, pos + 1 + buf[pos], jumped, depth, longer) == Ok(d') ==>
              Decode(buf, pos, jumped, depth, name) == Ok(d)
  {
    longer := AppendLabel(name, TextAt(buf, pos + 1, buf[pos]));
    d' := Decoded(d.name, d.consumed - if jumped then 0 else 1 + buf[pos]);
    LabelReadAs(buf, pos, jumped, depth, name, rest, d');
    LongerFits(buf, pos, jumped, depth, name, rest, d);
    LabelTurn(buf, pos, jumped, depth, name, 0);
  }

  lemma ReadingGivesPointer(buf: Bytes, pos: nat, jumped: bool, depth: nat, name: string, to: nat, rest: Reading,
                            d: Decoded)
    returns (d': Decoded)
    requires ReadAs(buf, pos, jumped, depth, name, Jump(to, rest), d)
    ensures depth < MAX_POINTERS && ReadAs(buf, to, true, depth + 1, name, rest, d')
    ensures Decode(buf, to, true, depth + 1, name) == Ok(d') ==> Decode(buf, pos, jumped, depth, name) == Ok(d)
  {
    d' := Decoded(d.name, 0);
    PointerReadAs(buf, pos, jumped, depth, name, to, rest, d');
    SpellsInside(buf, to, rest);
    assert PointerAt(buf, pos, jumped, depth) == Ok(to);
    PointerTurn(buf, pos, jumped, depth, name, 0);
  }

  /** A label on the way to a name that fits, fits. */
  lemma LongerFits(buf: Bytes, pos: nat, jumped: bool, depth: nat, name: string, rest: Reading, d: Decoded)
    requires pos < |buf| && 0 < buf[pos] && ReadAs(buf, pos, jumped, depth, name, Piece(buf[pos], rest), d)
    ensures WithLabelAt(buf, pos, name) == Ok(AppendLabel(name, TextAt(buf, pos + 1, buf[pos])))
  {
    ContinueStep(name, TextAt(buf, pos + 1, buf[pos]), LabelsRead(buf, pos + 1 + buf[pos], rest));
  }

  lemma SpellsInside(buf: Bytes, pos: nat, r: Reading)
    requires Spells(buf, pos, r)
    ensures pos < |buf|
  {
  }

  /** `decode_name` returns a name exactly when section 4.1.4 of RFC 1035 spells
      one with at most eight pointers, the first strictly backward, printable
      octets and at most 253 characters; and it returns that one. */
  lemma DecodeIsReading(buf: Bytes, offset: nat, name: string, consumed: nat)
    ensures DecodeAt(buf, offset) == Ok(Decoded(name, consumed)) <==>
            exists r :: Accepts(buf, offset, r, name, consumed)
  {
    var d := Decoded(name, consumed);
    if DecodeAt(buf, offset) == Ok(d) {
      var r := DecodeGivesReading(buf, offset, false, 0, "");
      assert Accepts(buf, offset, r, name, consumed);
    }
    forall r | Accepts(buf, offset, r, name, consumed) ensures DecodeAt(buf, offset) == Ok(d) {
      assert ReadAs(buf, offset, false, 0, "", r, d);
      ReadingGivesDecode(buf, offset, false, 0, "", r, d);
    }
  }

  /** The octets at one place are spelt in one way only. */
  lemma {:induction false} ReadingUnique(buf: Bytes, pos: nat, r: Reading, r': Reading)
    requires Spells(buf, pos, r) && Spells(buf, pos, r')
    ensures r == r'
    decreases r
  {
    match r
    case End =>
    case Piece(len, rest) => ReadingUnique(buf, pos + 1 + len, rest, r'.rest);
    case Jump(to, rest) => ReadingUnique(buf, to, rest, r'.rest);
  }

  /** Only the first pointer must lead backward: this name's second pointer
      leads forward, and the name is accepted. */
  lemma SecondPointerMayGoForward()
    ensures DecodeAt([0xC0, 3, 0, 0xC0, 5, 1, 0x61, 0, 0xC0, 3], 8) == Ok(Decoded("a", 2))
  {
    ForwardPointer([0xC0, 3, 0, 0xC0, 5, 1, 0x61, 0, 0xC0, 3]);
  }

  lemma ForwardPointer(buf: Bytes)
    requires |buf| == 10 && buf[3] == 0xC0 && buf[4] == 5 && buf[5] == 1 && buf[6] == 0x61 && buf[7] == 0
    requires buf[8] == 0xC0 && buf[9] == 3
    ensures DecodeAt(buf, 8) == Ok(Decoded("a", 2))
  {
    OneLetter(buf, 5, 'a');
    var r := Jump(3, Jump(5, Piece(1, End)));
    assert Spells(buf, 3, r.rest);
    assert LabelsRead(buf, 3, r.rest) == Label("a", Root) && AllPrintable(buf, 3, r.rest);
    assert Accepts(buf, 8, r, "a", 2);
    DecodeIsReading(buf, 8, "a", 2);
  }

  lemma OneLetter(buf: Bytes, pos: nat, c: char)
    requires pos + 2 < |buf| && buf[pos] == 1 && buf[pos + 2] == 0
    requires ToLower(buf[pos + 1] as char) == c && 'a' <= c <= 'z'
    ensures Spells(buf, pos, Piece(1, End)) && AllPrintable(buf, pos, Piece(1, End))
    ensures LabelsRead(buf, pos, Piece(1, End)) == Label([c], Root)
  {
    assert TextAt(buf, pos + 1, 1) == [c];
    assert Spells(buf, pos + 2, End);
  }

  /** A dot octet within a label reads like the dot between two: different
      octets, one name. */
  lemma DotOctetIsAmbiguous()
    ensures DecodeAt([3, 0x61, 0x2E, 0x62, 0], 0) == Ok(Decoded("a.b", 5))
    ensures DecodeAt([1, 0x61, 1, 0x62, 0], 0) == Ok(Decoded("a.b", 5))
  {
    DotWithin([3, 0x61, 0x2E, 0x62, 0]);
    DotBetween([1, 0x61, 1, 0x62, 0]);
  }

  lemma DotWithin(buf: Bytes)
    requires |buf| == 5 && buf[0] == 3 && buf[1] == 0x61 && buf[2] == 0x2E && buf[3] == 0x62 && buf[4] == 0
    ensures DecodeAt(buf, 0) == Ok(Decoded("a.b", 5))
  {
    assert TextAt(buf, 1, 3) == "a.b";
    assert Spells(buf, 4, End) && LabelsRead(buf, 0, Piece(3, End)) == Label("a.b", Root);
    assert Accepts(buf, 0, Piece(3, End), "a.b", 5);
    DecodeIsReading(buf, 0, "a.b", 5);
  }

  lemma DotBetween(buf: Bytes)
    requires |buf| == 5 && buf[0] == 1 && buf[1] == 0x61 && buf[2] == 1 && buf[3] == 0x62 && buf[4] == 0
    ensures DecodeAt(buf, 0) == Ok(Decoded("a.b", 5))
  {
    OneLetter(buf, 2, 'b');
    assert TextAt(buf, 1, 1) == "a";
    var r := Piece(1, Piece(1, End));
    assert Spells(buf, 0, r) && LabelsRead(buf, 0, r) == Label("a", Label("b", Root)) && AllPrintable(buf, 0, r);
    assert WireLength(r) == 5;
    assert Accepts(buf, 0, r, "a.b", 5);
    DecodeIsReading(buf, 0, "a.b", 5);
  }

  // ---------------------------------------------------------------------
  // The loop
  // ---------------------------------------------------------------------

  /** The walk ends after at most 127 labels, 8 pointers and one last turn,
      whatever the size of the buffer. */
  method DecodeName(buf: Bytes, offset: nat) returns (r: Result<Decoded>, ghost turns: nat)
    ensures r == DecodeAt(buf, offset)
    ensures turns <= 136
    ensures r.Ok? ==> |r.value.name| <= MAX_NAME
  {
    turns := 0;
    if offset >= |buf| {
      return Err(PointerOutOfBounds), turns;
    }
    var name := "";
    var curr: nat := offset;
    var consumed: nat := 0;
    var jumped := false;
    var depth: nat := 0;
    ghost var labels: nat := 0;
    ghost var whole := DecodeAt(buf, offset);
    AddNothing(whole);
    while true
      invariant depth <= MAX_POINTERS && |name| <= MAX_NAME
      invariant turns == labels + depth && (labels > 0 ==> |name| >= 2 * labels - 1) && (labels == 0 <==> name == "")
      invariant whole == AddConsumed(Decode(buf, curr, jumped, depth, name), consumed)
      decreases MAX_POINTERS - depth, |buf| - curr
    {
      turns := turns + 1;
      if curr >= |buf| {
        LastTurn(buf, curr, jumped, depth, name, consumed);
        return Err(PointerOutOfBounds), turns;
      }
      var len := buf[curr];
      if len == 0 {
        LastTurn(buf, curr, jumped, depth, name, consumed);
        if !jumped {
          consumed := consumed + 1;
        }
        return Ok(Decoded(name, consumed)), turns;
      }
      if len >= 0xC0 {
        var to;
        to, consumed := PointerBranch(buf, curr, jumped, depth, consumed, name, whole);
        if to.Err? {
          return Err(to.error), turns;
        }
        curr, jumped, depth := to.value, true, depth + 1;
      } else {
        var longer;
        longer, consumed := LabelBranch(buf, curr, jumped, name, consumed, depth, whole);
        if longer.Err? {
          return Err(longer.error), turns;
        }
        curr, name, labels := curr + 1 + len, longer.value, labels + 1;
      }
    }
  }

  /** The pointer branch of the loop. */
  method PointerBranch(buf: Bytes, curr: nat, jumped: bool, depth: nat, consumed: nat, ghost name: string,
                       ghost whole: Result<Decoded>)
    returns (to: Result<nat>, consumed': nat)
    requires depth <= MAX_POINTERS && curr < |buf| && buf[curr] >= 0xC0
    requires whole == AddConsumed(Decode(buf, curr, jumped, depth, name), consumed)
    ensures to.Err? ==> whole == Err(to.error)
    ensures to.Ok? ==> depth < MAX_POINTERS
                       && whole == AddConsumed(Decode(buf, to.value, true, depth + 1, name), consumed')
  {
    PointerTurn(buf, curr, jumped, depth, name, consumed);
    to := FollowPointer(buf, curr, jumped, depth);
    consumed' := if jumped then consumed else consumed + 2;
  }

  /** The label branch of the loop. */
  method LabelBranch(buf: Bytes, curr: nat, jumped: bool, name: string, consumed: nat, ghost depth: nat,
                     ghost whole: Result<Decoded>)
    returns (longer: Result<string>, consumed': nat)
    requires depth <= MAX_POINTERS && curr < |buf| && 0 < buf[curr] < 0xC0
    requires whole == AddConsumed(Decode(buf, curr, jumped, depth, name), consumed)
    ensures longer.Err? ==> whole == Err(longer.error)
    ensures longer.Ok? ==> |longer.value| <= MAX_NAME && |longer.value| >= (if name == "" then 1 else |name| + 2)
    ensures longer.Ok? ==> curr + 1 + buf[curr] <= |buf|
    ensures longer.Ok? ==>
              whole == AddConsumed(Decode(buf, curr + 1 + buf[curr], jumped, depth, longer.value), consumed')
  {
    LabelTurn(buf, curr, jumped, depth, name, consumed);
    longer := TakeLabel(buf, curr, name);
    consumed' := if jumped then consumed else consumed + 1 + buf[curr];
  }

  /** Where a pointer leads. */
  method FollowPointer(buf: Bytes, curr: nat, jumped: bool, depth: nat) returns (r: Result<nat>)
    requires curr < |buf| && buf[curr] >= 0xC0
    ensures r == PointerAt(buf, curr, jumped, depth)
  {
    if curr + 1 >= |buf| {
      return Err(PointerOutOfBounds);
    }
    if depth + 1 > MAX_POINTERS {
      return Err(PointerLoopDetected);
    }
    var to := Target(buf[curr], buf[curr + 1]);
    if to >= |buf| {
      return Err(PointerOutOfBounds);
    }
    if to >= curr && !jumped {
      return Err(PointerLoopDetected);
    }
    return Ok(to);
  }

  /** The label branch of the loop. */
  method TakeLabel(buf: Bytes, curr: nat, name: string) returns (r: Result<string>)
    requires curr < |buf| && buf[curr] != 0
    ensures r == WithLabelAt(buf, curr, name)
    ensures r.Ok? && name == "" ==> |r.value| >= 1
    ensures r.Ok? && name != "" ==> |r.value| >= |name| + 2
  {
    var len := buf[curr];
    if len >= 0x40 {
      return Err(InvalidLabelLength);
    }
    if curr + 1 + len > |buf| {
      return Err(PointerOutOfBounds);
    }
    var ok, name' := CopyLabel(buf, curr, len, name);
    if !ok {
      return Err(InvalidLabelLength);
    }
    if |name'| > MAX_NAME {
      return Err(NameTooLong);
    }
    return Ok(name');
  }

  /** The inner loop: a label lowered and appended, unless an octet is not printable. */
  method CopyLabel(buf: Bytes, curr: nat, len: nat, name: string) returns (ok: bool, name': string)
    requires curr + 1 + len <= |buf|
    ensures ok == PrintableAt(buf, curr + 1, len)
    ensures ok ==> name' == AppendLabel(name, TextAt(buf, curr + 1, len))
  {
    name' := name;
    if name' != "" {
      name' := name' + ".";
    }
    ghost var before := name';
    assert TextAt(buf, curr + 1, 0) == "";
    var i := 0;
    while i < len
      invariant 0 <= i <= len
      invariant PrintableAt(buf, curr + 1, i)
      invariant name' == before + TextAt(buf, curr + 1, i)
    {
      var c := buf[curr + 1 + i];
      if c < 32 || c == 127 {
        return false, name';
      }
      assert TextAt(buf, curr + 1, i + 1) == TextAt(buf, curr + 1, i) + [ToLower(c as char)];
      name' := name' + [ToLower(c as char)];
      i := i + 1;
    }
    return true, name';
  }

  // ---------------------------------------------------------------------
  // Questions
  // ---------------------------------------------------------------------

  datatype Question = Question(qname: string, qtype: U16, qclass: U16, wireBytes: nat)

  datatype Packet = Packet(header: Header, question: Question, raw: Bytes)

  function Parse(buf: Bytes): (r: Result<Packet>)
    ensures r.Ok? ==> r.value.raw == buf && HEADER_SIZE + r.value.question.wireBytes <= |buf| <= MAX_PAYLOAD
  {
    if |buf| < HEADER_SIZE then Err(PacketTooShort)
    else if |buf| > MAX_PAYLOAD then Err(PacketTooLarge)
    else
      var h := ParseHeader(buf);
      if !h.IsStandard() then Err(UnsupportedOpcode)
      else if h.qdcount != 1 then Err(InvalidQdCount)
      else
        var n := DecodeAt(buf, HEADER_SIZE);
        if n.Err? then Err(n.error)
        else
          var at := HEADER_SIZE + n.value.consumed;
          if at + 4 > |buf| then Err(MalformedQuestion)
          else Ok(Packet(h, Question(n.value.name, Word(buf[at], buf[at + 1]), Word(buf[at + 2], buf[at + 3]),
                                     n.value.consumed + 4), buf))
  }

  method ParsePacket(buf: Bytes) returns (r: Result<Packet>)
    ensures r == Parse(buf)
  {
    if |buf| < HEADER_SIZE {
      return Err(PacketTooShort);
    }
    if |buf| > MAX_PAYLOAD {
      return Err(PacketTooLarge);
    }
    var h := ParseHeader(buf);
    if !h.IsStandard() {
      return Err(UnsupportedOpcode);
    }
    if h.qdcount != 1 {
      return Err(InvalidQdCount);
    }
    var n, turns := DecodeName(buf, HEADER_SIZE);
    if n.Err? {
      return Err(n.error);
    }
    var at := HEADER_SIZE + n.value.consumed;
    if at + 4 > |buf| {
      return Err(MalformedQuestion);
    }
    var q := Question(n.value.name, Word(buf[at], buf[at + 1]), Word(buf[at + 2], buf[at + 3]), n.value.consumed + 4);
    return Ok(Packet(h, q, buf));
  }

  /** The reading of an accepted question's name. */
  lemma QuestionReading(buf: Bytes) returns (r: Reading)
    requires Parse(buf).Ok?
    ensures var q := Parse(buf).value.question;
            q.wireBytes >= 4 && Accepts(buf, HEADER_SIZE, r, q.qname, q.wireBytes - 4)
  {
    var n := DecodeAt(buf, HEADER_SIZE).value;
    DecodeIsReading(buf, HEADER_SIZE, n.name, n.consumed);
    r :| Accepts(buf, HEADER_SIZE, r, n.name, n.consumed);
  }

  /** A packet is accepted exactly when it has 12 to 4096 octets, the opcode 0
      and one question, and a reading of its name with four octets after it. */
  lemma AcceptedExactly(buf: Bytes)
    ensures Parse(buf).Ok? <==>
            && 12 <= |buf| <= 4096 && buf[2] / 8 % 16 == 0 && buf[4] == 0 && buf[5] == 1
            && exists r: Reading, name: string, n: nat :: Accepts(buf, 12, r, name, n) && 12 + n + 4 <= |buf|
  {
    if 12 <= |buf| <= 4096 && buf[2] / 8 % 16 == 0 && buf[4] == 0 && buf[5] == 1 {
      forall r: Reading, name: string, n: nat | Accepts(buf, 12, r, name, n)
        ensures DecodeAt(buf, 12) == Ok(Decoded(name, n))
      {
        DecodeIsReading(buf, 12, name, n);
      }
    }
    if Parse(buf).Ok? {
      var r := QuestionReading(buf);
    }
  }

  /** And what it then gives: the id, the name read, and the type and the class
      of the four octets after it. */
  lemma AcceptedGives(buf: Bytes, r: Reading, name: string, n: nat)
    requires Parse(buf).Ok? && Accepts(buf, 12, r, name, n)
    ensures var p := Parse(buf).value;
            && 12 + n + 4 <= |buf| && p.raw == buf && p.header.id == (buf[0] as int) * 0x100 + buf[1]
            && p.question.qname == name && p.question.wireBytes == n + 4
            && p.question.qtype == (buf[12 + n] as int) * 0x100 + buf[13 + n]
            && p.question.qclass == (buf[14 + n] as int) * 0x100 + buf[15 + n]
  {
    DecodeIsReading(buf, 12, name, n);
  }

  /** Which error a refused packet gets, by the first check that fails. */
  lemma RefusedWith(buf: Bytes)
    ensures |buf| < 12 ==> Parse(buf) == Err(PacketTooShort)
    ensures |buf| > 4096 ==> Parse(buf) == Err(PacketTooLarge)
    ensures 12 <= |buf| <= 4096 && buf[2] / 8 % 16 != 0 ==> Parse(buf) == Err(UnsupportedOpcode)
    ensures 12 <= |buf| <= 4096 && buf[2] / 8 % 16 == 0 && (buf[4] != 0 || buf[5] != 1) ==>
              Parse(buf) == Err(InvalidQdCount)
    ensures 12 <= |buf| <= 4096 && buf[2] / 8 % 16 == 0 && buf[4] == 0 && buf[5] == 1 ==>
              var d := DecodeAt(buf, 12);
              && (d.Err? ==> Parse(buf) == Err(d.error))
              && (d.Ok? && 12 + d.value.consumed + 4 > |buf| ==> Parse(buf) == Err(MalformedQuestion))
  {
  }
}
