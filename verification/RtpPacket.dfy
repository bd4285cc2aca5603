/** RTP headers and packets (RFC 3550, section 5.1), and retransmit requests for them. */
module RtpPackets {
  import opened Wrappers
  import opened ByteStrings

  const RETRANSMIT_REQUEST: byte := 85
  const RETRANSMIT_RESPONSE: byte := 86

  datatype RtpHeader = RtpHeader(
    version: byte, padding: bool, extension: bool, csrcCount: byte, marker: bool,
    payloadType: byte, sequence: u16, timestamp: u32, ssrc: u32)

  function NewHeader(payloadType: byte, sequence: u16, timestamp: u32, ssrc: u32, marker: bool): RtpHeader {
    RtpHeader(2, false, false, 0, marker, payloadType, sequence, timestamp, ssrc)
  }

  function Bit(b: bool, weight: nat): nat {
    if b then weight else 0
  }

  /** The bit fields of a byte do not overlap, so they are added up. */
  function FirstByte(h: RtpHeader): byte {
    h.version % 4 * 64 + Bit(h.padding, 32) + Bit(h.extension, 16) + h.csrcCount % 16
  }

  function SecondByte(h: RtpHeader): byte {
    Bit(h.marker, 128) + h.payloadType % 128
  }

  function SerializeHeader(h: RtpHeader): (r: Bytes)
    ensures |r| == 12 && r[2..4] == U16Be(h.sequence)
  {
    [FirstByte(h), SecondByte(h)] + U16Be(h.sequence) + U32Be(h.timestamp) + U32Be(h.ssrc)
  }

  /** The fields a receiver reads out of the twelve bytes. */
  function ReadHeader(b: Bytes): RtpHeader
    requires |b| >= 12
  {
    RtpHeader(b[0] / 64, b[0] / 32 % 2 == 1, b[0] / 16 % 2 == 1, b[0] % 16,
              b[1] / 128 == 1, b[1] % 128,
              FromU16Be(b[2..4]), FromU32Be(b[4..8]), FromU32Be(b[8..12]))
  }

  lemma FirstByteFields(version: nat, padding: bool, extension: bool, csrc: nat)
    requires version < 4 && csrc < 16
    ensures
      var b := version * 64 + Bit(padding, 32) + Bit(extension, 16) + csrc;
      b / 64 == version && b / 32 % 2 == Bit(padding, 1) && b / 16 % 2 == Bit(extension, 1) && b % 16 == csrc
  {
    var b := version * 64 + Bit(padding, 32) + Bit(extension, 16) + csrc;
    assert b / 16 == version * 4 + Bit(padding, 2) + Bit(extension, 1);
    assert b / 32 == version * 2 + Bit(padding, 1);
  }

  /** A receiver reads back every field that fits its bits. */
  lemma HeaderRoundTrip(h: RtpHeader)
    requires h.version < 4 && h.csrcCount < 16 && h.payloadType < 128
    ensures ReadHeader(SerializeHeader(h)) == h
  {
    var b := SerializeHeader(h);
    FirstByteFields(h.version, h.padding, h.extension, h.csrcCount);
    assert b[0] == h.version as int * 64 + Bit(h.padding, 32) + Bit(h.extension, 16) + h.csrcCount;
    assert b[4..8] == U32Be(h.timestamp);
    assert b[8..12] == U32Be(h.ssrc);
    U32RoundTrip(h.timestamp);
    U32RoundTrip(h.ssrc);
  }

  /** The twelve bytes of section 5.1 of RFC 3550 for version 2 without padding, extension or contributors. */
  ghost predicate HeaderBytes(b: Bytes, marker: bool, payloadType: byte, sequence: u16, timestamp: u32, ssrc: u32) {
    && |b| >= 12 && b[0] == 0x80
    && b[1] == (if marker then 128 else 0) + payloadType % 128
    && b[2] == sequence / 256 && b[3] == sequence % 256
    && FromBe(b[4..8]) == timestamp && FromBe(b[8..12]) == ssrc
  }

  /** These are the bytes of a new header, whatever follows them, and a receiver reads the same fields. */
  lemma NewHeaderBytes(payloadType: byte, sequence: u16, timestamp: u32, ssrc: u32, marker: bool, rest: Bytes)
    ensures
      var wire := SerializeHeader(NewHeader(payloadType, sequence, timestamp, ssrc, marker)) + rest;
      && HeaderBytes(wire, marker, payloadType, sequence, timestamp, ssrc)
      && ReadHeader(wire)
         == RtpHeader(2, false, false, 0, marker, payloadType % 128, sequence, timestamp, ssrc)
  {
    var wire := SerializeHeader(NewHeader(payloadType, sequence, timestamp, ssrc, marker)) + rest;
    assert wire[2..4] == U16Be(sequence) && wire[4..8] == U32Be(timestamp) && wire[8..12] == U32Be(ssrc);
    FourBytes(wire[4..8]);
    FourBytes(wire[8..12]);
    U32RoundTrip(timestamp);
    U32RoundTrip(ssrc);
  }

  // ----- Retransmission -----

  datatype RetransmitRequest = RetransmitRequest(firstSequence: u16, count: u16)

  datatype RequestError = TooShort | WrongPayloadType

  function ParseRequest(data: Bytes): Result<RetransmitRequest, RequestError> {
    if |data| < 12 then Err(TooShort)
    else if data[1] % 128 != RETRANSMIT_REQUEST then Err(WrongPayloadType)
    else Ok(RetransmitRequest(FromU16Be(data[8..10]), FromU16Be(data[10..12])))
  }

  /** Any twelve-byte request, whatever its marker bit and unused fields, is read back exactly. */
  lemma RequestRoundTrip(first: byte, marker: bool, unused: Bytes, request: RetransmitRequest, rest: Bytes)
    requires |unused| == 6
    ensures ParseRequest([first, Bit(marker, 128) + 85] + unused
                         + U16Be(request.firstSequence) + U16Be(request.count) + rest) == Ok(request)
  {
    var data := [first, Bit(marker, 128) + RETRANSMIT_REQUEST] + unused
                + U16Be(request.firstSequence) + U16Be(request.count) + rest;
    assert data[8..10] == U16Be(request.firstSequence);
    assert data[10..12] == U16Be(request.count);
  }

  /** A resent packet: a four-byte header carrying the original sequence number, then the original. */
  function RetransmitResponse(original: Bytes): Bytes {
    [0x80, 128 + RETRANSMIT_RESPONSE] + (if |original| >= 4 then original[2..4] else [0, 0]) + original
  }
}
