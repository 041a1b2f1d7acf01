/** Octets, limits, errors and the message header
    (dataplane/include/dns/protocol.h, dataplane/include/common/types.h). */
module Wire {

  type Byte = x: int | 0 <= x < 0x100
  type U16 = x: int | 0 <= x < 0x1_0000
  type Bytes = seq<Byte>

  const HEADER_SIZE := 12
  const MAX_PAYLOAD := 4096
  const MAX_NAME := 253
  const MAX_POINTERS := 8

  datatype ErrorCode =
    | PacketTooShort
    | PacketTooLarge
    | InvalidQdCount
    | InvalidLabelLength
    | PointerLoopDetected
    | PointerOutOfBounds
    | NameTooLong
    | BufferOverflow
    | UnsupportedOpcode
    | MalformedQuestion
    | UpstreamError
    | UnexpectedResponse

  datatype Result<+T> = Ok(value: T) | Err(error: ErrorCode)

  /** A 16-bit field in network order. */
  function Word(hi: Byte, lo: Byte): U16 {
    hi * 0x100 + lo
  }

  function High(w: U16): Byte { w / 0x100 }

  function Low(w: U16): Byte { w % 0x100 }

  /** The flags word is kept as the two octets it is read from. */
  datatype Header = Header(id: U16, flagsHigh: Byte, flagsLow: Byte,
                           qdcount: U16, ancount: U16, nscount: U16, arcount: U16) {

    predicate IsResponse() { flagsHigh >= 0x80 }

    /** The four opcode bits, below the response bit, are 0. */
    predicate IsStandard() { flagsHigh < 8 || 0x80 <= flagsHigh < 0x88 }

    predicate Rd() { flagsHigh % 2 == 1 }

    function Rcode(): nat { flagsLow % 0x10 }
  }

  function ParseHeader(buf: Bytes): Header
    requires |buf| >= HEADER_SIZE
  {
    Header(Word(buf[0], buf[1]), buf[2], buf[3],
           Word(buf[4], buf[5]), Word(buf[6], buf[7]), Word(buf[8], buf[9]), Word(buf[10], buf[11]))
  }

  /** What the model asks of the octets of the flags is what the source's shifts
      and masks ask of the word. */
  lemma BitFields(h: Header, high: bv8, low: bv8)
    requires h.flagsHigh == high as int && h.flagsLow == low as int
    ensures var flags := (high as bv16 << 8) | low as bv16;
            && (h.IsResponse() <==> flags & 0x8000 != 0)
            && (h.IsStandard() <==> (flags >> 11) & 0x0F == 0)
            && (h.Rd() <==> flags & 0x0100 != 0)
            && h.Rcode() == (flags & 0x000F) as int
  {
    HighBits(high, low);
    LowBits(high, low);
  }

  lemma HighBits(high: bv8, low: bv8)
    ensures var flags := (high as bv16 << 8) | low as bv16;
            && (flags & 0x8000 != 0 <==> high as int >= 0x80)
            && ((flags >> 11) & 0x0F == 0 <==> (high as int) < 8 || 0x80 <= high as int < 0x88)
            && (flags & 0x0100 != 0 <==> high as int % 2 == 1)
  {
    assert high as int % 2 == (high % 2) as int;
  }

  lemma LowBits(high: bv8, low: bv8)
    ensures (((high as bv16 << 8) | low as bv16) & 0x000F) as int == low as int % 0x10
  {
    assert ((high as bv16 << 8) | low as bv16) & 0x000F == (low % 0x10) as bv16;
  }

  /** The two high bits of a length octet, and the rest. */
  lemma LengthBits(len: bv8)
    ensures len & 0xC0 == 0xC0 <==> len >= 0xC0
    ensures len & 0xC0 != 0 <==> len >= 0x40
    ensures len >= 0xC0 ==> len & 0x3F == len - 0xC0
  {
  }

  /** Two octets put together by shift and or, as words and pointers are, give
      the sum the model uses; a pointer's two high bits are masked out. */
  lemma ShiftedOctets(high: bv8, low: bv8)
    ensures (((high as bv16) << 8) | low as bv16) as int == Word(high as int, low as int)
    ensures high >= 0xC0 ==>
              ((((high & 0x3F) as bv16) << 8) | low as bv16) as int == (high as int - 0xC0) * 0x100 + low as int
  {
  }

  /** Octets written by shift and mask are those a word was put together from. */
  lemma SplitWord(high: bv8, low: bv8)
    ensures var word := (high as bv16 << 8) | low as bv16;
            word >> 8 == high as bv16 && word & 0xFF == low as bv16
  {
  }
}
