/** Responses built from queries (dataplane/src/dns/response.cpp): what the
    parser reads back from them. */
module Responses {
  import opened Text
  import opened Wire
  import opened Names
  import opened Parser

  // ---------------------------------------------------------------------
  // The octets a name is read from
  // ---------------------------------------------------------------------

  ghost predicate Visits(pos: nat, r: Reading, i: nat)
    decreases r
  {
    match r
    case End => i == pos
    case Piece(len, rest) => pos <= i < pos + 1 + len || Visits(pos + 1 + len, rest, i)
    case Jump(to, rest) => i == pos || i == pos + 1 || Visits(to, rest, i)
  }

  /** Two buffers hold the same octets wherever the reading looks. */
  ghost predicate Agree(buf: Bytes, buf': Bytes, pos: nat, r: Reading) {
    forall i: nat :: Visits(pos, r, i) ==> i < |buf| && i < |buf'| && buf[i] == buf'[i]
  }

  /** A name depends on the octets it is read from, and on nothing else. */
  lemma {:induction false} SameOctetsSameName(buf: Bytes, buf': Bytes, pos: nat, r: Reading)
    requires Spells(buf, pos, r) && Agree(buf, buf', pos, r)
    ensures Spells(buf', pos, r) && LabelsRead(buf', pos, r) == LabelsRead(buf, pos, r)
    ensures AllPrintable(buf, pos, r) ==> AllPrintable(buf', pos, r)
    decreases r
  {
    match r
    case End =>
      assert Visits(pos, r, pos);
    case Piece(len, rest) =>
      var next := pos + 1 + len;
      assert forall i: nat :: pos <= i < next ==> Visits(pos, r, i);
      assert Visits(pos, r, pos) && Visits(pos, r, pos + len);
      AgreeFurther(buf, buf', pos, r, next, rest);
      SameOctetsSameName(buf, buf', next, rest);
      SameText(buf, buf', pos + 1, len);
    case Jump(to, rest) =>
      assert Visits(pos, r, pos) && Visits(pos, r, pos + 1);
      AgreeFurther(buf, buf', pos, r, to, rest);
      SameOctetsSameName(buf, buf', to, rest);
  }

  lemma AgreeFurther(buf: Bytes, buf': Bytes, pos: nat, r: Reading, next: nat, rest: Reading)
    requires Agree(buf, buf', pos, r) && forall i: nat :: Visits(next, rest, i) ==> Visits(pos, r, i)
    ensures Agree(buf, buf', next, rest)
  {
  }

  lemma SameText(buf: Bytes, buf': Bytes, from: nat, len: nat)
    requires from + len <= |buf| && from + len <= |buf'|
    requires forall i :: from <= i < from + len ==> buf[i] == buf'[i]
    ensures TextAt(buf', from, len) == TextAt(buf, from, len)
    ensures PrintableAt(buf, from, len) ==> PrintableAt(buf', from, len)
  {
  }

  lemma {:induction false} PointerFreeIsLocal(pos: nat, r: Reading)
    requires Pointers(r) == 0
    ensures forall i: nat :: Visits(pos, r, i) ==> pos <= i < pos + WireLength(r)
    decreases r
  {
    match r
    case End =>
    case Piece(len, rest) => PointerFreeIsLocal(pos + 1 + len, rest);
  }

  lemma ParseByParts(buf: Bytes, h: Header, n: Decoded)
    requires HEADER_SIZE <= |buf| <= MAX_PAYLOAD && ParseHeader(buf) == h && h.IsStandard() && h.qdcount == 1
    ensures DecodeAt(buf, HEADER_SIZE).Err? ==> Parse(buf).Err?
    ensures DecodeAt(buf, HEADER_SIZE) == Ok(n) && HEADER_SIZE + n.consumed + 4 <= |buf| ==>
              && Parse(buf).Ok? && Parse(buf).value.raw == buf && Parse(buf).value.header == h
              && Parse(buf).value.question.qname == n.name && Parse(buf).value.question.wireBytes == n.consumed + 4
  {
  }

  lemma ParsesTo(buf: Bytes, r: Reading, name: string, n: nat)
    requires HEADER_SIZE <= |buf| <= MAX_PAYLOAD && ParseHeader(buf).IsStandard() && ParseHeader(buf).qdcount == 1
    requires Accepts(buf, HEADER_SIZE, r, name, n) && HEADER_SIZE + n + 4 <= |buf|
    ensures Parse(buf).Ok? && Parse(buf).value.question.qname == name && Parse(buf).value.question.wireBytes == n + 4
  {
    DecodeIsReading(buf, HEADER_SIZE, name, n);
    ParseByParts(buf, ParseHeader(buf), Decoded(name, n));
  }

  lemma SameFields(buf: Bytes, resp: Bytes, q: Packet)
    requires Parse(buf) == Ok(q) && Parse(resp).Ok?
    requires var p := Parse(resp).value.question; p.qname == q.question.qname && p.wireBytes == q.question.wireBytes
    requires forall i :: HEADER_SIZE <= i < HEADER_SIZE + q.question.wireBytes ==>
               i < |buf| && i < |resp| && resp[i] == buf[i]
    ensures Parse(resp).value.question == q.question && Parse(resp).value.header == ParseHeader(resp)
  {
  }

  /** A buffer with the question of an accepted packet, under a header of its
      own, asks the same question as long as its name is read from octets that
      have stayed the same. */
  lemma SameQuestion(buf: Bytes, buf': Bytes, r: Reading)
    requires Parse(buf).Ok? && Spells(buf, HEADER_SIZE, r) && Agree(buf, buf', HEADER_SIZE, r)
    requires var w := Parse(buf).value.question.wireBytes;
             && HEADER_SIZE + w <= |buf'| <= MAX_PAYLOAD
             && forall i :: HEADER_SIZE <= i < HEADER_SIZE + w ==> buf'[i] == buf[i]
    requires ParseHeader(buf').IsStandard() && ParseHeader(buf').qdcount == 1
    ensures Parse(buf').Ok? && Parse(buf').value.question == Parse(buf).value.question
    ensures Parse(buf').value.header == ParseHeader(buf')
  {
    var q := Parse(buf).value.question;
    var r' := QuestionReading(buf);
    ReadingUnique(buf, HEADER_SIZE, r, r');
    SameOctetsSameName(buf, buf', HEADER_SIZE, r);
    assert Accepts(buf', HEADER_SIZE, r, q.qname, q.wireBytes - 4);
    ParsesTo(buf', r, q.qname, q.wireBytes - 4);
    SameFields(buf, buf', Parse(buf).value);
  }

  /** A reading that leaves a buffer which agrees with it as far as it goes:
      the buffer spells no name there. */
  lemma {:induction false} LeavingIsLost(buf: Bytes, buf': Bytes, pos: nat, r: Reading, r': Reading)
    requires Spells(buf, pos, r) && Spells(buf', pos, r')
    requires forall i: nat :: Visits(pos, r, i) && i < |buf'| ==> i < |buf| && buf'[i] == buf[i]
    ensures forall i: nat :: Visits(pos, r, i) ==> i < |buf'|
    decreases r
  {
    assert Visits(pos, r, pos);
    match r
    case End =>
    case Piece(len, rest) =>
      var next := pos + 1 + len;
      forall i: nat | Visits(next, rest, i) ensures Visits(pos, r, i) {}
      LeavingIsLost(buf, buf', next, rest, r'.rest);
    case Jump(to, rest) =>
      assert Visits(pos, r, pos + 1);
      forall i: nat | Visits(to, rest, i) ensures Visits(pos, r, i) {}
      LeavingIsLost(buf, buf', to, rest, r'.rest);
  }

  // ---------------------------------------------------------------------
  // Errors
  // ---------------------------------------------------------------------

  /** The low flags octet of `0x8180 | rcode`; the high one is 0x81, which has
      RD set whether the query had it or not. */
  function ErrorFlags(rcode: Byte): Byte {
    0x80 + rcode % 0x10
  }

  lemma ErrorFlagsMask(rcode: bv16, rd: bool)
    ensures var flags := 0x8180 | (rcode & 0x000F);
            (if rd then flags | 0x0100 else flags) == 0x8180 + rcode % 0x10
  {
  }

  function QuestionOctets(q: Packet): (r: Bytes)
    requires HEADER_SIZE + q.question.wireBytes <= |q.raw|
    ensures |r| == q.question.wireBytes
  {
    q.raw[HEADER_SIZE..HEADER_SIZE + q.question.wireBytes]
  }

  function HeaderOctets(id: U16, flagsHigh: Byte, flagsLow: Byte, answers: Byte): (r: Bytes)
    ensures |r| == HEADER_SIZE
  {
    HeaderFrom(High(id), Low(id), flagsHigh, flagsLow, answers)
  }

  function HeaderFrom(idHigh: Byte, idLow: Byte, flagsHigh: Byte, flagsLow: Byte, answers: Byte): (r: Bytes)
    ensures |r| == HEADER_SIZE
  {
    [idHigh, idLow, flagsHigh, flagsLow, 0, 1, 0, answers, 0, 0, 0, 0]
  }

  lemma WordSplits(w: U16)
    ensures Word(High(w), Low(w)) == w
  {
  }

  lemma HeaderReadsBack(header: Bytes, h: Header, idHigh: Byte, idLow: Byte, flagsHigh: Byte, flagsLow: Byte,
                        answers: Byte)
    requires header == HeaderFrom(idHigh, idLow, flagsHigh, flagsLow, answers)
    requires h == Header(Word(idHigh, idLow), flagsHigh, flagsLow, 1, answers, 0, 0) && 0x80 <= flagsHigh < 0x88
    ensures |header| == HEADER_SIZE && ParseHeader(header) == h && h.IsStandard() && h.qdcount == 1
  {
  }

  /** A header, then the octets of `buf` up to `end`, and more after them perhaps. */
  ghost predicate Repeats(buf: Bytes, end: nat, resp: Bytes, h: Header) {
    && HEADER_SIZE <= end <= |resp| && end <= |buf|
    && ParseHeader(resp) == h && h.IsStandard() && h.qdcount == 1
    && forall i :: HEADER_SIZE <= i < end ==> resp[i] == buf[i]
  }

  /** A header and a question, with more octets after them perhaps. */
  ghost predicate IsReply(buf: Bytes, resp: Bytes, h: Header)
    requires Parse(buf).Ok?
  {
    Repeats(buf, HEADER_SIZE + Parse(buf).value.question.wireBytes, resp, h)
  }

  lemma ReplyOctets(buf: Bytes, end: nat, header: Bytes, h: Header, resp: Bytes)
    requires HEADER_SIZE <= end <= |buf| && |header| == HEADER_SIZE && header + buf[HEADER_SIZE..end] <= resp
    requires ParseHeader(header) == h && h.IsStandard() && h.qdcount == 1
    ensures Repeats(buf, end, resp, h)
  {
    var front := header + buf[HEADER_SIZE..end];
    forall i | 0 <= i < |front| ensures resp[i] == front[i] {}
    assert ParseHeader(resp) == ParseHeader(header);
  }

  method PutHeader(resp: array<Byte>, id: U16, flagsHigh: Byte, flagsLow: Byte, answers: Byte)
    requires resp.Length >= HEADER_SIZE
    modifies resp
    ensures resp[..HEADER_SIZE] == HeaderOctets(id, flagsHigh, flagsLow, answers)
    ensures resp[HEADER_SIZE..] == old(resp[HEADER_SIZE..])
  {
    resp[0], resp[1] := High(id), Low(id);
    resp[2], resp[3] := flagsHigh, flagsLow;
    resp[4], resp[5] := 0, 1;
    resp[6], resp[7] := 0, answers;
    resp[8], resp[9] := 0, 0;
    resp[10], resp[11] := 0, 0;
  }

  method PutQuestion(resp: array<Byte>, query: Packet)
    requires HEADER_SIZE + query.question.wireBytes <= |query.raw|
    requires HEADER_SIZE + query.question.wireBytes <= resp.Length
    modifies resp
    ensures resp[..HEADER_SIZE] == old(resp[..HEADER_SIZE])
    ensures resp[HEADER_SIZE..HEADER_SIZE + query.question.wireBytes] == QuestionOctets(query)
    ensures resp[HEADER_SIZE + query.question.wireBytes..] == old(resp[HEADER_SIZE + query.question.wireBytes..])
  {
    forall i | 0 <= i < query.question.wireBytes {
      resp[HEADER_SIZE + i] := query.raw[HEADER_SIZE + i];
    }
  }

  /** A header, the question of a query, and the answers. */
  function Message(header: Bytes, q: Packet, answers: Bytes): Bytes
    requires HEADER_SIZE + q.question.wireBytes <= |q.raw|
  {
    header + QuestionOctets(q) + answers
  }

  function ErrorResponse(q: Packet, rcode: Byte): Bytes
    requires HEADER_SIZE + q.question.wireBytes <= |q.raw|
  {
    Message(HeaderOctets(q.header.id, 0x81, ErrorFlags(rcode), 0), q, [])
  }

  method BuildErrorResponse(query: Packet, rcode: Byte) returns (response: Bytes)
    requires HEADER_SIZE + query.question.wireBytes <= |query.raw|
    ensures response == ErrorResponse(query, rcode)
  {
    var resp := new Byte[HEADER_SIZE + query.question.wireBytes](i => 0);
    PutHeader(resp, query.header.id, 0x81, ErrorFlags(rcode), 0);
    PutQuestion(resp, query);
    assert resp[..] == resp[..HEADER_SIZE] + resp[HEADER_SIZE..];
    return resp[..];
  }

  lemma MessageIsReply(buf: Bytes, q: Packet, header: Bytes, h: Header, answers: Bytes)
    requires Parse(buf) == Ok(q) && |header| == HEADER_SIZE
    requires ParseHeader(header) == h && h.IsStandard() && h.qdcount == 1
    ensures IsReply(buf, Message(header, q, answers), h)
  {
    ReplyOctets(buf, HEADER_SIZE + q.question.wireBytes, header, h, Message(header, q, answers));
  }

  /** The error response as a reply. */
  lemma ErrorIsReply(buf: Bytes, q: Packet, rcode: Byte) returns (h: Header)
    requires Parse(buf) == Ok(q)
    ensures h == Header(q.header.id, 0x81, ErrorFlags(rcode), 1, 0, 0, 0) && IsReply(buf, ErrorResponse(q, rcode), h)
  {
    var id, flagsLow := q.header.id, ErrorFlags(rcode);
    WordSplits(id);
    h := Header(id, 0x81, flagsLow, 1, 0, 0, 0);
    var header := HeaderOctets(id, 0x81, flagsLow, 0);
    HeaderReadsBack(header, h, High(id), Low(id), 0x81, flagsLow, 0);
    MessageIsReply(buf, q, header, h, []);
  }

  /** Where the name of a query is read from its header, it finds there what the
      header of the response holds. */
  ghost predicate HeaderStays(buf: Bytes, r: Reading, flagsHigh: Byte, flagsLow: Byte, answers: Byte)
    requires |buf| >= HEADER_SIZE
  {
    forall i: nat :: Visits(HEADER_SIZE, r, i) && i < HEADER_SIZE ==>
      buf[i] == HeaderFrom(buf[0], buf[1], flagsHigh, flagsLow, answers)[i]
  }

  /** The name of a query is read from its header and its question only. */
  ghost predicate ReadsWithin(buf: Bytes, r: Reading)
    requires Parse(buf).Ok?
  {
    forall i: nat :: Visits(HEADER_SIZE, r, i) ==> i < HEADER_SIZE + Parse(buf).value.question.wireBytes
  }

  lemma IdOctets(buf: Bytes)
    requires |buf| >= HEADER_SIZE
    ensures High(ParseHeader(buf).id) == buf[0] && Low(ParseHeader(buf).id) == buf[1]
  {
  }

  /** A buffer that holds a header and repeats the question holds what the name
      is read from, as far as they go. */
  lemma FrontStays(buf: Bytes, resp: Bytes, front: Bytes, r: Reading)
    requires Parse(buf).Ok? && |front| == HEADER_SIZE <= |resp| && resp[..HEADER_SIZE] == front
    requires var end := HEADER_SIZE + Parse(buf).value.question.wireBytes;
             end <= |buf| && end <= |resp| && forall i :: HEADER_SIZE <= i < end ==> resp[i] == buf[i]
    requires forall i: nat :: Visits(HEADER_SIZE, r, i) && i < HEADER_SIZE ==> buf[i] == front[i]
    ensures forall i: nat :: Visits(HEADER_SIZE, r, i) && i < HEADER_SIZE + Parse(buf).value.question.wireBytes ==>
              i < |buf| && resp[i] == buf[i]
    ensures ReadsWithin(buf, r) ==> Agree(buf, resp, HEADER_SIZE, r)
  {
    assert forall i :: 0 <= i < HEADER_SIZE ==> resp[i] == resp[..HEADER_SIZE][i];
  }

  lemma ErrorFront(buf: Bytes, rcode: Byte)
    requires Parse(buf).Ok?
    ensures ErrorResponse(Parse(buf).value, rcode)[..HEADER_SIZE]
            == HeaderFrom(buf[0], buf[1], 0x81, ErrorFlags(rcode), 0)
  {
    HeaderOfParse(buf);
    IdOctets(buf);
  }

  lemma HeaderOfParse(buf: Bytes)
    requires Parse(buf).Ok?
    ensures Parse(buf).value.header == ParseHeader(buf) && Parse(buf).value.raw == buf
  {
  }

  /** A name without pointers is read from its question alone. */
  lemma PlainReadsWithin(buf: Bytes, r: Reading)
    requires Parse(buf).Ok? && Spells(buf, HEADER_SIZE, r) && Pointers(r) == 0
    ensures ReadsWithin(buf, r) && forall i: nat :: Visits(HEADER_SIZE, r, i) ==> i >= HEADER_SIZE
  {
    var r' := QuestionReading(buf);
    ReadingUnique(buf, HEADER_SIZE, r, r');
    PointerFreeIsLocal(HEADER_SIZE, r);
  }

  /** So it finds its octets in every reply, whatever the header. */
  lemma PlainStays(buf: Bytes, r: Reading, flagsHigh: Byte, flagsLow: Byte, answers: Byte)
    requires Parse(buf).Ok? && Spells(buf, HEADER_SIZE, r) && Pointers(r) == 0
    ensures ReadsWithin(buf, r) && HeaderStays(buf, r, flagsHigh, flagsLow, answers)
  {
    PlainReadsWithin(buf, r);
  }

  /** What reading an error response to a query gives: the same question and
      id, the flags 0x8180 with the code, so with RD whatever the query had,
      and no record. */
  predicate ReadsAsError(p: Result<Packet>, q: Packet, rcode: Byte) {
    && p.Ok? && p.value.question == q.question
    && p.value.header.id == q.header.id
    && p.value.header.IsResponse() && p.value.header.Rd() && p.value.header.Rcode() == rcode % 0x10
    && Word(p.value.header.flagsHigh, p.value.header.flagsLow) == 0x8180 + rcode % 0x10
    && p.value.header.qdcount == 1
    && p.value.header.ancount == p.value.header.nscount == p.value.header.arcount == 0
  }

  lemma ErrorByHeader(p: Result<Packet>, q: Packet, rcode: Byte)
    requires p.Ok? && p.value.question == q.question
    requires p.value.header == Header(q.header.id, 0x81, ErrorFlags(rcode), 1, 0, 0, 0)
    ensures ReadsAsError(p, q, rcode)
  {
  }

  /** An error response to an accepted query reads as one exactly when the name
      is read from the header and the question only, for names that find their
      header octets unchanged; it is refused otherwise. */
  lemma ErrorResponseParses(buf: Bytes, rcode: Byte, r: Reading)
    requires Parse(buf).Ok? && Spells(buf, HEADER_SIZE, r)
    requires HeaderStays(buf, r, 0x81, ErrorFlags(rcode), 0)
    ensures var q := Parse(buf).value; ReadsAsError(Parse(ErrorResponse(q, rcode)), q, rcode) <==> ReadsWithin(buf, r)
    ensures Parse(ErrorResponse(Parse(buf).value, rcode)).Ok? <==> ReadsWithin(buf, r)
  {
    var q := Parse(buf).value;
    var resp := ErrorResponse(q, rcode);
    var h := ErrorIsReply(buf, q, rcode);
    ErrorFront(buf, rcode);
    FrontStays(buf, resp, HeaderFrom(buf[0], buf[1], 0x81, ErrorFlags(rcode), 0), r);
    if ReadsWithin(buf, r) {
      SameQuestion(buf, resp, r);
      ErrorByHeader(Parse(resp), q, rcode);
    }
    if Parse(resp).Ok? {
      var r' := QuestionReading(resp);
      LeavingIsLost(buf, resp, HEADER_SIZE, r, r');
    }
  }

  /** Where the name has no pointer it always does. */
  lemma PlainErrorResponseParses(buf: Bytes, rcode: Byte, r: Reading)
    requires Parse(buf).Ok? && Spells(buf, HEADER_SIZE, r) && Pointers(r) == 0
    ensures ReadsAsError(Parse(ErrorResponse(Parse(buf).value, rcode)), Parse(buf).value, rcode)
  {
    PlainStays(buf, r, 0x81, ErrorFlags(rcode), 0);
    ErrorResponseParses(buf, rcode, r);
  }

  // ---------------------------------------------------------------------
  // Sinkholes
  // ---------------------------------------------------------------------

  /** A number of 32 bits in network order: its high word, then its low one. */
  function Long(x: U32): Bytes {
    [High(x / 0x1_0000), Low(x / 0x1_0000), High(x % 0x1_0000), Low(x % 0x1_0000)]
  }

  /** The answer record: a pointer to the question's name, type A, class IN. */
  function Answer(ttl: U32, address: Bytes): Bytes {
    [0xC0, 0x0C, 0, 1, 0, 1] + Long(ttl) + [0, 4] + address
  }

  method PutAnswer(resp: array<Byte>, ans: nat, address: Bytes, ttl: U32)
    requires ans + 16 == resp.Length && |address| == 4
    modifies resp
    ensures resp[..ans] == old(resp[..ans]) && resp[ans..] == Answer(ttl, address)
  {
    resp[ans], resp[ans + 1] := 0xC0, 0x0C;
    resp[ans + 2], resp[ans + 3], resp[ans + 4], resp[ans + 5] := 0, 1, 0, 1;
    forall i | 0 <= i < 4 {
      resp[ans + 6 + i] := Long(ttl)[i];
    }
    resp[ans + 10], resp[ans + 11] := 0, 4;
    forall i | 0 <= i < 4 {
      resp[ans + 12 + i] := address[i];
    }
  }

  function SinkholeResponse(q: Packet, address: Bytes, ttl: U32): Bytes
    requires HEADER_SIZE + q.question.wireBytes <= |q.raw|
  {
    Message(HeaderOctets(q.header.id, 0x85, 0x80, 1), q, Answer(ttl, address))
  }

  /** `address` is the IPv4 address as it lies in memory, in network order. */
  method BuildSinkholeResponse(query: Packet, address: Bytes, ttl: U32) returns (response: Bytes)
    requires HEADER_SIZE + query.question.wireBytes <= |query.raw| && |address| == 4
    ensures response == SinkholeResponse(query, address, ttl)
  {
    var ans := HEADER_SIZE + query.question.wireBytes;
    var resp := new Byte[ans + 16](i => 0);
    PutHeader(resp, query.header.id, 0x85, 0x80, 1);
    PutQuestion(resp, query);
    ghost var before := resp[..ans];
    assert before == HeaderOctets(query.header.id, 0x85, 0x80, 1) + QuestionOctets(query) by {
      assert before == resp[..HEADER_SIZE] + resp[HEADER_SIZE..ans];
    }
    PutAnswer(resp, ans, address, ttl);
    assert resp[..] == resp[..ans] + resp[ans..];
    return resp[..];
  }

  /** An answer whose name is a pointer to the question. */
  predicate PointsToQuestion(answer: Bytes) {
    |answer| == 16 && answer[0] == 0xC0 && answer[1] == 0x0C
  }

  lemma AnswerPoints(ttl: U32, address: Bytes)
    requires |address| == 4
    ensures PointsToQuestion(Answer(ttl, address))
  {
  }

  /** The response to `buf` ends in one answer, whose name is a pointer to the question. */
  ghost predicate IsAnswered(buf: Bytes, resp: Bytes, h: Header)
    requires Parse(buf).Ok?
  {
    var ans := HEADER_SIZE + Parse(buf).value.question.wireBytes;
    IsReply(buf, resp, h) && |resp| == ans + 16 && resp[ans] == 0xC0 && resp[ans + 1] == 0x0C
  }

  lemma SinkholeIsAnswered(buf: Bytes, address: Bytes, ttl: U32)
    requires Parse(buf).Ok? && |address| == 4
    ensures var q := Parse(buf).value;
            IsAnswered(buf, SinkholeResponse(q, address, ttl), Header(q.header.id, 0x85, 0x80, 1, 1, 0, 0))
  {
    var q := Parse(buf).value;
    var id := q.header.id;
    WordSplits(id);
    AnswerPoints(ttl, address);
    var header, h := HeaderOctets(id, 0x85, 0x80, 1), Header(id, 0x85, 0x80, 1, 1, 0, 0);
    HeaderReadsBack(header, h, High(id), Low(id), 0x85, 0x80, 1);
    AnswerAfterHeader(buf, HEADER_SIZE + q.question.wireBytes, header, h, Answer(ttl, address));
  }

  lemma SinkholeFront(buf: Bytes, address: Bytes, ttl: U32)
    requires Parse(buf).Ok? && |address| == 4
    ensures SinkholeResponse(Parse(buf).value, address, ttl)[..HEADER_SIZE]
            == HeaderFrom(buf[0], buf[1], 0x85, 0x80, 1)
  {
    HeaderOfParse(buf);
    IdOctets(buf);
  }

  lemma AnswerAfterHeader(buf: Bytes, end: nat, header: Bytes, h: Header, answer: Bytes)
    requires HEADER_SIZE <= end <= |buf| && |header| == HEADER_SIZE && PointsToQuestion(answer)
    requires ParseHeader(header) == h && h.IsStandard() && h.qdcount == 1
    ensures var resp := header + buf[HEADER_SIZE..end] + answer;
            Repeats(buf, end, resp, h) && |resp| == end + 16 && resp[end] == 0xC0 && resp[end + 1] == 0x0C
  {
    ReplyOctets(buf, end, header, h, header + buf[HEADER_SIZE..end] + answer);
    AnswerAt(header + buf[HEADER_SIZE..end], answer);
  }

  lemma AnswerAt(front: Bytes, answer: Bytes)
    requires PointsToQuestion(answer)
    ensures |front + answer| == |front| + 16
    ensures (front + answer)[|front|] == 0xC0 && (front + answer)[|front| + 1] == 0x0C
  {
  }

  /** The name behind a pointer to a name, with one more pointer used. */
  lemma PointerToName(resp: Bytes, ans: nat, r: Reading, name: string)
    requires HEADER_SIZE < ans && ans + 1 < |resp| && resp[ans] == 0xC0 && resp[ans + 1] == 0x0C
    requires Spells(resp, HEADER_SIZE, r) && AllPrintable(resp, HEADER_SIZE, r)
    requires name == Dotted(LabelsRead(resp, HEADER_SIZE, r)) && |name| <= MAX_NAME
    ensures DecodeAt(resp, ans) == Ok(Decoded(name, 2)) <==> Pointers(r) <= 7
  {
    var pointer := Jump(HEADER_SIZE, r);
    assert Spells(resp, ans, pointer);
    if Pointers(r) <= 7 {
      assert Accepts(resp, ans, pointer, name, 2);
    }
    DecodeIsReading(resp, ans, name, 2);
    if DecodeAt(resp, ans) == Ok(Decoded(name, 2)) {
      var r1 :| Accepts(resp, ans, r1, name, 2);
      ReadingUnique(resp, ans, pointer, r1);
    }
  }

  lemma AnsweredQuestion(buf: Bytes, resp: Bytes, h: Header, r: Reading)
    requires Parse(buf).Ok? && Spells(buf, HEADER_SIZE, r) && IsAnswered(buf, resp, h)
    requires Agree(buf, resp, HEADER_SIZE, r)
    ensures var q := Parse(buf).value.question;
            && Parse(resp).Ok? && Parse(resp).value.question == q && Parse(resp).value.header == h
            && (DecodeAt(resp, HEADER_SIZE + q.wireBytes) == Ok(Decoded(q.qname, 2)) <==> Pointers(r) <= 7)
  {
    var q := Parse(buf).value.question;
    var r0 := QuestionReading(buf);
    ReadingUnique(buf, HEADER_SIZE, r, r0);
    NameFitsMessage(buf, HEADER_SIZE, r);
    SameQuestion(buf, resp, r);
    SameOctetsSameName(buf, resp, HEADER_SIZE, r);
    PointerToName(resp, HEADER_SIZE + q.wireBytes, r, q.qname);
  }

  /** A sinkhole response repeats the question, and the name of its answer is
      the question's, in two octets, exactly when the name itself has used at
      most seven of the eight pointers. */
  lemma SinkholeAnswersQuestion(buf: Bytes, address: Bytes, ttl: U32, r: Reading)
    requires Parse(buf).Ok? && Spells(buf, HEADER_SIZE, r) && |address| == 4
    requires HeaderStays(buf, r, 0x85, 0x80, 1) && ReadsWithin(buf, r)
    ensures var q := Parse(buf).value;
            var resp := SinkholeResponse(q, address, ttl);
            && Parse(resp).Ok? && Parse(resp).value.question == q.question
            && Parse(resp).value.header == Header(q.header.id, 0x85, 0x80, 1, 1, 0, 0)
            && (AnswerNamed(resp, q) <==> Pointers(r) <= 7)
  {
    var q := Parse(buf).value;
    var resp, h := SinkholeResponse(q, address, ttl), Header(q.header.id, 0x85, 0x80, 1, 1, 0, 0);
    SinkholeIsAnswered(buf, address, ttl);
    SinkholeFront(buf, address, ttl);
    FrontStays(buf, resp, HeaderFrom(buf[0], buf[1], 0x85, 0x80, 1), r);
    AnsweredQuestion(buf, resp, h, r);
  }

  /** The record after the question is about the question's name. */
  predicate AnswerNamed(resp: Bytes, q: Packet) {
    DecodeAt(resp, HEADER_SIZE + q.question.wireBytes) == Ok(Decoded(q.question.qname, 2))
  }

  /** An accepted question whose name has no pointer fits a response with one
      answer, and the answer's name is the question's. */
  lemma PlainSinkholeAnswersQuestion(buf: Bytes, address: Bytes, ttl: U32, r: Reading)
    requires Parse(buf).Ok? && Spells(buf, HEADER_SIZE, r) && Pointers(r) == 0 && |address| == 4
    ensures var q := Parse(buf).value;
            var resp := SinkholeResponse(q, address, ttl);
            Parse(resp).Ok? && Parse(resp).value.question == q.question && AnswerNamed(resp, q)
  {
    PlainStays(buf, r, 0x85, 0x80, 1);
    SinkholeAnswersQuestion(buf, address, ttl, r);
  }

  /** The octets of a name up to its end or first pointer are at most two more
      than its characters, or three. */
  lemma {:induction false} NameFitsMessage(buf: Bytes, pos: nat, r: Reading)
    requires Spells(buf, pos, r)
    ensures WireLength(r) <= |Dotted(LabelsRead(buf, pos, r))| + 3
    decreases r
  {
    match r
    case End =>
    case Piece(len, rest) =>
      NameFitsMessage(buf, pos + 1 + len, rest);
      DottedLength(TextAt(buf, pos + 1, len), LabelsRead(buf, pos + 1 + len, rest));
    case Jump(_, _) =>
  }

  lemma DottedLength(head: string, above: Labels)
    ensures |Dotted(Label(head, above))| == |head| + if above == Root then 0 else 1 + |Dotted(above)|
  {
  }

  /** The record itself: type A, class IN, the time to live and the address. */
  lemma SinkholeRecordReads(buf: Bytes, address: Bytes, ttl: U32)
    requires Parse(buf).Ok? && |address| == 4
    ensures var q := Parse(buf).value;
            var resp := SinkholeResponse(q, address, ttl);
            var ans := HEADER_SIZE + q.question.wireBytes;
            && |resp| == ans + 16
            && Word(resp[ans + 2], resp[ans + 3]) == 1 && Word(resp[ans + 4], resp[ans + 5]) == 1
            && Word(resp[ans + 6], resp[ans + 7]) * 0x1_0000 + Word(resp[ans + 8], resp[ans + 9]) == ttl
            && Word(resp[ans + 10], resp[ans + 11]) == 4 && resp[ans + 12..] == address
  {
    var q := Parse(buf).value;
    var front := HeaderOctets(q.header.id, 0x85, 0x80, 1) + QuestionOctets(q);
    AnswerReads(front, address, ttl);
  }

  lemma AnswerReads(front: Bytes, address: Bytes, ttl: U32)
    requires |address| == 4
    ensures var resp, ans := front + Answer(ttl, address), |front|;
            && |resp| == ans + 16
            && Word(resp[ans + 2], resp[ans + 3]) == 1 && Word(resp[ans + 4], resp[ans + 5]) == 1
            && Word(resp[ans + 6], resp[ans + 7]) * 0x1_0000 + Word(resp[ans + 8], resp[ans + 9]) == ttl
            && Word(resp[ans + 10], resp[ans + 11]) == 4 && resp[ans + 12..] == address
  {
    var a := Answer(ttl, address);
    LongReads(ttl);
    assert forall i :: 0 <= i < 16 ==> (front + a)[|front| + i] == a[i];
    assert (front + a)[|front| + 12..] == a[12..] == address;
  }

  lemma LongReads(x: U32)
    ensures var l := Long(x); Word(l[0], l[1]) * 0x1_0000 + Word(l[2], l[3]) == x
  {
    WordSplits(x / 0x1_0000);
    WordSplits(x % 0x1_0000);
  }

  // ---------------------------------------------------------------------
  // Ids
  // ---------------------------------------------------------------------

  function WithId(b: Bytes, id: U16): (r: Bytes)
    ensures |r| == |b| && (|b| >= 2 ==> Word(r[0], r[1]) == id && r[2..] == b[2..])
  {
    if |b| < 2 then b else [High(id), Low(id)] + b[2..]
  }

  method TranslateTxid(buffer: array<Byte>, clientId: U16) returns (ok: bool)
    modifies buffer
    ensures ok == (buffer.Length >= 2)
    ensures buffer[..] == WithId(old(buffer[..]), clientId)
  {
    if buffer.Length < 2 {
      return false;
    }
    buffer[0] := High(clientId);
    buffer[1] := Low(clientId);
    return true;
  }

  lemma WithIdOctets(b: Bytes, id: U16, hi: Byte, lo: Byte)
    requires |b| >= 2 && id == Word(hi, lo)
    ensures |WithId(b, id)| == |b| && WithId(b, id)[0] == High(id) == hi && WithId(b, id)[1] == Low(id) == lo
    ensures forall i :: 2 <= i < |b| ==> WithId(b, id)[i] == b[i]
  {
  }

  /** Where the name is read from the id, it finds there the new one. */
  ghost predicate IdStays(buf: Bytes, id: U16, r: Reading)
    requires |buf| >= HEADER_SIZE
  {
    && (Visits(HEADER_SIZE, r, 0) ==> buf[0] == High(id))
    && (Visits(HEADER_SIZE, r, 1) ==> buf[1] == Low(id))
  }

  /** Reading a message under another id gives the same, but for the id. */
  predicate ReadsUnderId(p: Result<Packet>, q: Packet, id: U16) {
    p.Ok? && p.value.question == q.question && p.value.header == q.header.(id := id)
  }

  /** Rewriting the id changes the id alone, unless the name is read from it. */
  lemma IdRewriteParses(buf: Bytes, id: U16, r: Reading)
    requires Parse(buf).Ok? && Spells(buf, HEADER_SIZE, r) && IdStays(buf, id, r)
    ensures ReadsUnderId(Parse(WithId(buf, id)), Parse(buf).value, id)
  {
    var buf' := WithId(buf, id);
    assert forall i :: 2 <= i < |buf| ==> buf'[i] == buf[i];
    assert ParseHeader(buf') == ParseHeader(buf).(id := id);
    var r' := QuestionReading(buf);
    ReadingUnique(buf, HEADER_SIZE, r, r');
    VisitsInside(buf, HEADER_SIZE, r);
    SameQuestion(buf, buf', r);
  }

  lemma {:induction false} VisitsInside(buf: Bytes, pos: nat, r: Reading)
    requires Spells(buf, pos, r)
    ensures forall i: nat :: Visits(pos, r, i) ==> i < |buf|
    decreases r
  {
    match r
    case End =>
    case Piece(len, rest) => VisitsInside(buf, pos + 1 + len, rest);
    case Jump(to, rest) => VisitsInside(buf, to, rest);
  }

  lemma PlainIdRewriteParses(buf: Bytes, id: U16, r: Reading)
    requires Parse(buf).Ok? && Spells(buf, HEADER_SIZE, r) && Pointers(r) == 0
    ensures IdStays(buf, id, r) && ReadsUnderId(Parse(WithId(buf, id)), Parse(buf).value, id)
  {
    PlainReadsWithin(buf, r);
    IdRewriteParses(buf, id, r);
  }

  // ---------------------------------------------------------------------
  // Names read from elsewhere
  // ---------------------------------------------------------------------

  const HEADER_NAME_QUERY: Bytes := [1, 0x61, 1, 0x62, 0, 1, 0, 0, 0, 0, 0, 0, 0xC0, 0, 0, 1, 0, 1]
  const HEADER_NAME_REPLY: Bytes := [1, 0x61, 0x81, 0x83, 0, 1, 0, 0, 0, 0, 0, 0, 0xC0, 0, 0, 1, 0, 1]

  lemma HeaderNameRead(buf: Bytes)
    requires |buf| == 18 && buf[0] == 1 && buf[1] == 0x61 && buf[2] == 1 && buf[3] == 0x62 && buf[4] == 0
    requires buf[12] == 0xC0 && buf[13] == 0
    ensures DecodeAt(buf, 12) == Ok(Decoded("a.b", 2))
  {
    OneLetter(buf, 2, 'b');
    assert TextAt(buf, 1, 1) == "a";
    var r := Piece(1, Piece(1, End));
    assert Spells(buf, 0, r) && AllPrintable(buf, 0, r) && LabelsRead(buf, 0, r) == Label("a", Label("b", Root));
    HeaderNameAccepted(buf, r);
    DecodeIsReading(buf, 12, "a.b", 2);
  }

  lemma HeaderNameAccepted(buf: Bytes, r: Reading)
    requires |buf| == 18 && buf[12] == 0xC0 && buf[13] == 0 && Pointers(r) == 0
    requires Spells(buf, 0, r) && AllPrintable(buf, 0, r) && LabelsRead(buf, 0, r) == Label("a", Label("b", Root))
    ensures Accepts(buf, 12, Jump(0, r), "a.b", 2)
  {
    var whole := Jump(0, r);
    assert Spells(buf, 12, whole) && AllPrintable(buf, 12, whole);
    assert Dotted(LabelsRead(buf, 12, whole)) == "a.b";
  }

  /** In the reply the second label begins with the octet 0x81, which begins nothing. */
  lemma HeaderNameReplyUnread(r: Reading)
    ensures !Spells(HEADER_NAME_REPLY, 12, r)
  {
    var buf := HEADER_NAME_REPLY;
    assert buf[12] == 0xC0 && buf[13] == 0 && buf[0] == 1 && buf[2] == 0x81;
    if r.Jump? && r.rest.Piece? {
      assert !Spells(buf, 2, r.rest.rest);
    }
  }

  lemma HeaderNameReplyFails()
    ensures DecodeAt(HEADER_NAME_REPLY, 12).Err?
  {
    if DecodeAt(HEADER_NAME_REPLY, 12).Ok? {
      var n := DecodeAt(HEADER_NAME_REPLY, 12).value;
      DecodeIsReading(HEADER_NAME_REPLY, 12, n.name, n.consumed);
      var r :| Accepts(HEADER_NAME_REPLY, 12, r, n.name, n.consumed);
      HeaderNameReplyUnread(r);
    }
  }

  lemma HeaderNameResponse(q: Packet)
    requires q.raw == HEADER_NAME_QUERY && q.question.wireBytes == 6 && q.header.id == 0x161
    ensures ErrorResponse(q, 3) == HEADER_NAME_REPLY
  {
    assert QuestionOctets(q) == [0xC0, 0, 0, 1, 0, 1];
    assert ErrorFlags(3) == 0x83;
    assert High(0x161) == 1 && Low(0x161) == 0x61;
  }

  lemma HeaderNameQueryParses()
    ensures var q := Parse(HEADER_NAME_QUERY);
            && q.Ok? && q.value.raw == HEADER_NAME_QUERY && q.value.header.id == 0x161
            && q.value.question.qname == "a.b" && q.value.question.wireBytes == 6
  {
    HeaderNameRead(HEADER_NAME_QUERY);
    ParseByParts(HEADER_NAME_QUERY, ParseHeader(HEADER_NAME_QUERY), Decoded("a.b", 2));
    assert Word(1, 0x61) == 0x161;
  }

  lemma HeaderNameReplyRefused()
    ensures Parse(HEADER_NAME_REPLY).Err?
  {
    HeaderNameReplyFails();
    ParseByParts(HEADER_NAME_REPLY, ParseHeader(HEADER_NAME_REPLY), Decoded("", 0));
  }

  /** The condition matters: a name may point into its own header, whose octets
      a response rewrites. This query is accepted, and the error response to it
      is not. */
  lemma HeaderPointerIsLost()
    ensures exists buf :: Parse(buf).Ok? && Parse(ErrorResponse(Parse(buf).value, 3)).Err?
  {
    HeaderNameQueryParses();
    HeaderNameReplyRefused();
    HeaderNameResponse(Parse(HEADER_NAME_QUERY).value);
  }

  /** The id of this query is a pointer, and its name is read there, past its question. */
  const BEYOND_QUERY: Bytes := [0xC0, 18, 1, 0, 0, 1, 0, 0, 0, 0, 0, 0, 0xC0, 0, 0, 1, 0, 1, 1, 0x61, 0]

  lemma BeyondRead(buf: Bytes) returns (r: Reading)
    requires |buf| == 21 && buf[0] == 0xC0 && buf[1] == 18 && buf[12] == 0xC0 && buf[13] == 0
    requires buf[18] == 1 && buf[19] == 0x61 && buf[20] == 0
    ensures Accepts(buf, 12, r, "a", 2) && Visits(12, r, 18)
    ensures forall i: nat :: Visits(12, r, i) && i < 12 ==> i < 2
  {
    OneLetter(buf, 18, 'a');
    var inner := Jump(18, Piece(1, End));
    assert Spells(buf, 0, inner) && AllPrintable(buf, 0, inner) && LabelsRead(buf, 0, inner) == Label("a", Root);
    r := Jump(0, inner);
    assert Spells(buf, 12, r) && LabelsRead(buf, 12, r) == Label("a", Root);
    assert Visits(18, Piece(1, End), 18) && Visits(0, inner, 18);
  }

  /** Reading past the question matters: the response to this accepted query is refused. */
  lemma NameBeyondIsLost(rcode: Byte)
    ensures Parse(BEYOND_QUERY).Ok? && Parse(ErrorResponse(Parse(BEYOND_QUERY).value, rcode)).Err?
  {
    var buf := BEYOND_QUERY;
    var r := BeyondRead(buf);
    ParsesTo(buf, r, "a", 2);
    forall i: nat | Visits(12, r, i) && i < 12
      ensures buf[i] == HeaderFrom(buf[0], buf[1], 0x81, ErrorFlags(rcode), 0)[i]
    {
      assert i == 0 || i == 1;
    }
    ErrorResponseParses(buf, rcode, r);
  }

  /** The name of this query is read from its answer count, a pointer to a zero. */
  const LUCKY_QUERY: Bytes := [0, 0, 1, 0, 0, 1, 0xC0, 8, 0, 0, 0, 0, 1, 0x61, 0xC0, 6, 0, 1, 0, 1]

  lemma LuckyRead(buf: Bytes, rest: Reading)
    requires |buf| == 20 && buf[12] == 1 && buf[13] == 0x61 && buf[14] == 0xC0 && buf[15] == 6
    requires Spells(buf, 6, rest) && AllPrintable(buf, 6, rest) && LabelsRead(buf, 6, rest) == Root
    requires Pointers(rest) <= 7
    ensures Accepts(buf, 12, Piece(1, Jump(6, rest)), "a", 4)
  {
    assert TextAt(buf, 13, 1) == "a";
    var jump := Jump(6, rest);
    assert Spells(buf, 14, jump) && LabelsRead(buf, 14, jump) == Root && AllPrintable(buf, 14, jump);
    assert WireLength(Piece(1, jump)) == 4;
    assert LabelsRead(buf, 12, Piece(1, jump)) == Label("a", Root);
  }

  lemma LuckyQueryRead(buf: Bytes, r: Reading)
    requires |buf| == 20 && buf[12] == 1 && buf[13] == 0x61 && buf[14] == 0xC0 && buf[15] == 6
    requires buf[6] == 0xC0 && buf[7] == 8 && buf[8] == 0 && r == Piece(1, Jump(6, Jump(8, End)))
    ensures Accepts(buf, 12, r, "a", 4) && Visits(12, r, 6)
  {
    var rest := Jump(8, End);
    assert Spells(buf, 8, End) && Spells(buf, 6, rest) && LabelsRead(buf, 6, rest) == Root;
    LuckyRead(buf, rest);
    assert Visits(6, rest, 6) && Visits(14, Jump(6, rest), 6);
  }

  lemma LuckyReplyRead(resp: Bytes)
    requires |resp| == 20 && resp[12] == 1 && resp[13] == 0x61 && resp[14] == 0xC0 && resp[15] == 6 && resp[6] == 0
    ensures Accepts(resp, 12, Piece(1, Jump(6, End)), "a", 4)
  {
    assert Spells(resp, 6, End);
    LuckyRead(resp, End);
  }

  lemma LuckyReply(buf: Bytes, q: Packet, resp: Bytes, h: Header)
    requires Parse(buf) == Ok(q) && q.question.wireBytes == 8 && q.question.qname == "a" && |buf| == |resp| == 20
    requires buf[12] == 1 && buf[13] == 0x61 && buf[14] == 0xC0 && buf[15] == 6
    requires h == Header(q.header.id, h.flagsHigh, h.flagsLow, 1, 0, 0, 0) && IsReply(buf, resp, h) && resp[6] == 0
    ensures Parse(resp).Ok? && Parse(resp).value.question == q.question && Parse(resp).value.header == h
  {
    LuckyReplyRead(resp);
    ParsesTo(resp, Piece(1, Jump(6, End)), "a", 4);
    SameFields(buf, resp, q);
  }

  lemma LuckyQueryParses()
    ensures Parse(LUCKY_QUERY).Ok? && Parse(LUCKY_QUERY).value.question.qname == "a"
    ensures Parse(LUCKY_QUERY).value.question.wireBytes == 8
    ensures Spells(LUCKY_QUERY, 12, Piece(1, Jump(6, Jump(8, End)))) && Visits(12, Piece(1, Jump(6, Jump(8, End))), 6)
  {
    var r := Piece(1, Jump(6, Jump(8, End)));
    LuckyQueryRead(LUCKY_QUERY, r);
    ParsesTo(LUCKY_QUERY, r, "a", 4);
  }

  /** Changed header octets need not spoil the name: this one is read from an
      octet that the response sets to zero, and it is read alike. */
  lemma HeaderMayChange(rcode: Byte)
    ensures var r := Piece(1, Jump(6, Jump(8, End)));
            && Parse(LUCKY_QUERY).Ok? && Spells(LUCKY_QUERY, 12, r)
            && !HeaderStays(LUCKY_QUERY, r, 0x81, ErrorFlags(rcode), 0)
            && ReadsAsError(Parse(ErrorResponse(Parse(LUCKY_QUERY).value, rcode)), Parse(LUCKY_QUERY).value, rcode)
  {
    LuckyQueryParses();
    CountChanges(LUCKY_QUERY, Piece(1, Jump(6, Jump(8, End))), ErrorFlags(rcode));
    LuckyIsRead(LUCKY_QUERY, rcode);
  }

  lemma LuckyIsRead(buf: Bytes, rcode: Byte)
    requires Parse(buf).Ok? && |buf| == 20
    requires Parse(buf).value.question.qname == "a" && Parse(buf).value.question.wireBytes == 8
    requires buf[12] == 1 && buf[13] == 0x61 && buf[14] == 0xC0 && buf[15] == 6
    ensures ReadsAsError(Parse(ErrorResponse(Parse(buf).value, rcode)), Parse(buf).value, rcode)
  {
    var q := Parse(buf).value;
    var h := ErrorIsReply(buf, q, rcode);
    ErrorLength(q, rcode);
    ErrorFront(buf, rcode);
    assert ErrorResponse(q, rcode)[6] == ErrorResponse(q, rcode)[..HEADER_SIZE][6];
    LuckyReply(buf, q, ErrorResponse(q, rcode), h);
    ErrorByHeader(Parse(ErrorResponse(q, rcode)), q, rcode);
  }

  lemma ErrorLength(q: Packet, rcode: Byte)
    requires HEADER_SIZE + q.question.wireBytes <= |q.raw|
    ensures |ErrorResponse(q, rcode)| == HEADER_SIZE + q.question.wireBytes
  {
  }

  lemma CountChanges(buf: Bytes, r: Reading, flagsLow: Byte)
    requires |buf| >= HEADER_SIZE && buf[6] != 0 && Visits(12, r, 6)
    ensures !HeaderStays(buf, r, 0x81, flagsLow, 0)
  {
    assert HeaderFrom(buf[0], buf[1], 0x81, flagsLow, 0)[6] == 0;
  }

  lemma LetterInId(buf: Bytes)
    requires |buf| == 18 && buf[0] == 1 && ToLower(buf[1] as char) == 'a' && buf[2] == 0
    requires buf[12] == 0xC0 && buf[13] == 0
    ensures Accepts(buf, 12, Jump(0, Piece(1, End)), "a", 2)
  {
    OneLetter(buf, 0, 'a');
    assert Spells(buf, 12, Jump(0, Piece(1, End)));
  }

  /** The name of this query is a capital letter in its id. */
  const CAPITAL_QUERY: Bytes := [1, 0x41, 0, 0, 0, 1, 0, 0, 0, 0, 0, 0, 0xC0, 0, 0, 1, 0, 1]

  lemma LetterParses(buf: Bytes)
    requires |buf| == 18 && buf[0] == 1 && ToLower(buf[1] as char) == 'a' && buf[2] == 0
    requires buf[12] == 0xC0 && buf[13] == 0 && ParseHeader(buf).IsStandard() && ParseHeader(buf).qdcount == 1
    ensures Parse(buf).Ok? && Parse(buf).value.question.qname == "a" && Parse(buf).value.question.wireBytes == 6
    ensures Spells(buf, 12, Jump(0, Piece(1, End))) && Visits(12, Jump(0, Piece(1, End)), 1)
  {
    var r := Jump(0, Piece(1, End));
    LetterInId(buf);
    ParsesTo(buf, r, "a", 2);
    assert Visits(0, Piece(1, End), 1);
  }

  /** A changed id need not spoil a name read from it: this one only loses its capital. */
  lemma IdMayChange()
    ensures var buf, r := CAPITAL_QUERY, Jump(0, Piece(1, End));
            && Parse(buf).Ok? && Spells(buf, 12, r) && !IdStays(buf, 0x161, r)
            && ReadsUnderId(Parse(WithId(buf, 0x161)), Parse(buf).value, 0x161)
  {
    LetterParses(CAPITAL_QUERY);
    WithIdOctets(CAPITAL_QUERY, 0x161, 1, 0x61);
    SmallLetter(CAPITAL_QUERY, WithId(CAPITAL_QUERY, 0x161));
  }

  lemma SmallLetter(buf: Bytes, buf': Bytes)
    requires Parse(buf).Ok? && |buf| == |buf'| == 18 && forall i :: 2 <= i < 18 ==> buf'[i] == buf[i]
    requires Parse(buf).value.question.qname == "a" && Parse(buf).value.question.wireBytes == 6
    requires buf'[0] == 1 && buf'[1] == 0x61 && buf[2] == 0 && buf[12] == 0xC0 && buf[13] == 0
    ensures ReadsUnderId(Parse(buf'), Parse(buf).value, 0x161)
  {
    HeaderOfParse(buf);
    assert ParseHeader(buf') == ParseHeader(buf).(id := 0x161);
    ParsedIsStandard(buf);
    LetterParses(buf');
    SameFields(buf, buf', Parse(buf).value);
  }

  lemma ParsedIsStandard(buf: Bytes)
    requires Parse(buf).Ok?
    ensures ParseHeader(buf).IsStandard() && ParseHeader(buf).qdcount == 1
  {
  }

  /** The name of this response begins with the low octet of its id. */
  const ID_RESPONSE: Bytes := [0, 2, 0x81, 0x80, 0, 1, 0, 0, 0, 0, 0, 0, 0xC0, 1, 0, 1, 0, 1]

  /** Reading the id matters: this accepted response is refused under another id. */
  lemma IdPointerIsLost()
    ensures Parse(ID_RESPONSE).Ok? && Parse(WithId(ID_RESPONSE, 3)).Err?
  {
    IdRead(ID_RESPONSE);
    LostUnderId(ID_RESPONSE, 3);
  }

  lemma LostUnderId(buf: Bytes, id: U16)
    requires |buf| == 18 && Low(id) == 3 && buf[4] == 0 && buf[12] == 0xC0 && buf[13] == 1
    ensures Parse(WithId(buf, id)).Err?
  {
    var buf' := WithId(buf, id);
    assert buf'[1] == 3 && forall i :: 2 <= i < 18 ==> buf'[i] == buf[i];
    ThreeUnprinted(buf');
  }

  lemma IdRead(buf: Bytes)
    requires |buf| == 18 && buf[1] == 2 && IsPrintable(buf[2]) && IsPrintable(buf[3]) && buf[4] == 0
    requires buf[12] == 0xC0 && buf[13] == 1 && ParseHeader(buf).IsStandard() && ParseHeader(buf).qdcount == 1
    ensures Parse(buf).Ok?
  {
    TwoOctets(buf);
    ParsesTo(buf, Jump(1, Piece(2, End)), TextAt(buf, 2, 2), 2);
  }

  lemma TwoOctets(buf: Bytes)
    requires |buf| == 18 && buf[1] == 2 && IsPrintable(buf[2]) && IsPrintable(buf[3]) && buf[4] == 0
    requires buf[12] == 0xC0 && buf[13] == 1
    ensures Accepts(buf, 12, Jump(1, Piece(2, End)), TextAt(buf, 2, 2), 2)
  {
    var r := Piece(2, End);
    assert Spells(buf, 4, End) && Spells(buf, 1, r) && AllPrintable(buf, 1, r);
    assert LabelsRead(buf, 1, r) == Label(TextAt(buf, 2, 2), Root);
    assert Spells(buf, 12, Jump(1, r));
  }

  lemma ThreeUnprinted(buf: Bytes)
    requires |buf| == 18 && buf[1] == 3 && buf[4] == 0 && buf[12] == 0xC0 && buf[13] == 1
    ensures Parse(buf).Err?
  {
    if Parse(buf).Ok? {
      var r := QuestionReading(buf);
      ThreeSpelt(buf, r);
    }
  }

  lemma ThreeSpelt(buf: Bytes, r: Reading)
    requires |buf| == 18 && buf[1] == 3 && buf[4] == 0 && buf[12] == 0xC0 && buf[13] == 1 && Spells(buf, 12, r)
    ensures !AllPrintable(buf, 12, r)
  {
    assert r.to == 1 && Spells(buf, 1, r.rest);
    assert r.rest.len == 3 && !IsPrintable(buf[4]);
  }
}
