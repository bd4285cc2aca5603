/** The RTP sender: packet numbering, sync packets, and the history used for retransmission. */
module RtpSenders {
  import opened Wrappers
  import opened ByteStrings
  import opened RtpPackets
  import Clocks

  const PACKET_HISTORY_SIZE: nat := 512

  datatype EncryptedPayload = EncryptedPayload(data: Bytes, tag: Option<Bytes>, nonce: Option<Bytes>)

  /** Payload, timestamp, ssrc and sequence to the encrypted payload, or a failure. */
  type PacketCipher = (Bytes, u32, u32, u16) -> Option<EncryptedPayload>

  /** What a sender has done so far, with its history as the full log of packets. */
  datatype Sender = Sender(
    ssrc: u32, cipher: Option<PacketCipher>, controlPort: u16,
    syncSequence: u16, firstSyncSent: bool, log: seq<Bytes>)

  datatype SendError = EncryptionFailed | SocketNotBound | SocketFailed

  /** The bytes put on the wire for one packet. */
  function WirePacket(cipher: Option<PacketCipher>, ssrc: u32, sequence: u16, payloadType: byte,
                      timestamp: u32, payload: Bytes, marker: bool)
    : (r: Option<Bytes>)
    ensures r.Some? ==> |r.value| >= 12 && r.value[2..4] == U16Be(sequence)
  {
    var header := SerializeHeader(NewHeader(payloadType, sequence, timestamp, ssrc, marker));
    if cipher.None? then Some(header + payload)
    else
      match cipher.value(payload, timestamp, ssrc, sequence)
      case None => None
      case Some(e) =>
        var wire := header + e.data + OrEmpty(e.tag) + OrEmpty(e.nonce);
        assert wire[2..4] == header[2..4];
        Some(wire)
  }

  /** What follows the header: the payload, or all that the cipher made of it. */
  lemma WirePacketBytes(cipher: Option<PacketCipher>, ssrc: u32, sequence: u16, payloadType: byte,
                        timestamp: u32, payload: Bytes, marker: bool, wire: Bytes)
    requires WirePacket(cipher, ssrc, sequence, payloadType, timestamp, payload, marker) == Some(wire)
    ensures HeaderBytes(wire, marker, payloadType, sequence, timestamp, ssrc)
    ensures ReadHeader(wire)
            == RtpHeader(2, false, false, 0, marker, payloadType % 128, sequence, timestamp, ssrc)
    ensures match cipher
            case None => wire[12..] == payload
            case Some(encrypt) =>
              var made := encrypt(payload, timestamp, ssrc, sequence);
              made.Some? && wire[12..] == made.value.data + OrEmpty(made.value.tag) + OrEmpty(made.value.nonce)
  {
    var header := SerializeHeader(NewHeader(payloadType, sequence, timestamp, ssrc, marker));
    NewHeaderBytes(payloadType, sequence, timestamp, ssrc, marker, wire[12..]);
    match cipher
    case None =>
      assert wire == header + payload;
      assert wire == header + wire[12..];
    case Some(encrypt) =>
      var made := encrypt(payload, timestamp, ssrc, sequence).value;
      var sealed := made.data + OrEmpty(made.tag) + OrEmpty(made.nonce);
      assert wire == header + sealed;
      assert wire[12..] == sealed;
  }

  // ----- Sending, as functions of the sender's log -----

  function Prepare(s: Sender, payloadType: byte, timestamp: u32, payload: Bytes, marker: bool)
    : (Sender, Option<Bytes>)
  {
    var wire := WirePacket(s.cipher, s.ssrc, |s.log| % TWO_16, payloadType, timestamp, payload, marker);
    if wire.None? then (s, None) else (s.(log := s.log + [wire.value]), wire)
  }

  function SyncPacket(first: bool, sequence: u16, rtp: u32, ntp: u64): (r: Bytes)
    ensures |r| == 20
  {
    [if first then 0x90 else 0x80, 0xd4] + U16Be(sequence) + U32Be(rtp) + ToBe(ntp, 8) + U32Be(rtp)
  }

  function PtpSyncPacket(first: bool, sequence: u16, rtp: u32, ptpNs: u64, nextRtp: u32, clockId: Bytes): Bytes {
    var seconds := ptpNs / Clocks.NANOS_PER_SECOND % TWO_32;
    var fraction := ptpNs % Clocks.NANOS_PER_SECOND * TWO_32 / Clocks.NANOS_PER_SECOND % TWO_32;
    [if first then 0x90 else 0x80, 0xD7] + U16Be(sequence) + U32Be(rtp)
    + U32Be(seconds) + U32Be(fraction) + U32Be(nextRtp) + clockId
  }

  function NextSync(s: Sender): Sender {
    s.(firstSyncSent := true, syncSequence := (s.syncSequence + 1) % TWO_16)
  }

  /** A sender without a control port sends no sync packets at all. */
  function SyncStep(s: Sender, rtp: u32, ntp: u64): (Sender, Option<Bytes>) {
    if s.controlPort == 0 then (s, None)
    else (NextSync(s), Some(SyncPacket(!s.firstSyncSent, s.syncSequence, rtp, ntp)))
  }

  function PtpSyncStep(s: Sender, rtp: u32, ptpNs: u64, nextRtp: u32, clockId: Bytes)
    : (Sender, Option<Bytes>)
  {
    if s.controlPort == 0 then (s, None)
    else (NextSync(s), Some(PtpSyncPacket(!s.firstSyncSent, s.syncSequence, rtp, ptpNs, nextRtp, clockId)))
  }

  function ResetSync(s: Sender): Sender {
    s.(firstSyncSent := false)
  }

  /** What a receiver reads out of a sync packet. */
  lemma SyncFields(first: bool, sequence: u16, rtp: u32, ntp: u64)
    ensures
      var b := SyncPacket(first, sequence, rtp, ntp);
      && b[1] == 0xd4 && FromU16Be(b[2..4]) == sequence && FromU32Be(b[4..8]) == rtp
      && FromBe(b[8..16]) == ntp && FromU32Be(b[16..20]) == rtp
  {
    var b := SyncPacket(first, sequence, rtp, ntp);
    assert b[2..4] == U16Be(sequence) && b[4..8] == U32Be(rtp) && b[16..20] == U32Be(rtp);
    assert b[8..16] == ToBe(ntp, 8);
    U32RoundTrip(rtp);
    SpaceOf64Bits(8);
    ToBeValue(ntp, 8);
  }

  /** And out of its PTP form: seconds and fraction are those of the NTP timestamp of the moment, less its epoch. */
  lemma PtpSyncFields(first: bool, sequence: u16, rtp: u32, ptpNs: u64, nextRtp: u32, clockId: Bytes)
    ensures
      var b := PtpSyncPacket(first, sequence, rtp, ptpNs, nextRtp, clockId);
      && b[1] == 0xD7 && FromU16Be(b[2..4]) == sequence && FromU32Be(b[4..8]) == rtp
      && FromU32Be(b[8..12]) == (Clocks.UnixToNtp(ptpNs) / TWO_32 - Clocks.NTP_EPOCH_OFFSET) % TWO_32
      && FromU32Be(b[12..16]) == Clocks.UnixToNtp(ptpNs) % TWO_32
      && FromU32Be(b[16..20]) == nextRtp && b[20..] == clockId
  {
    var b := PtpSyncPacket(first, sequence, rtp, ptpNs, nextRtp, clockId);
    var seconds := ptpNs / Clocks.NANOS_PER_SECOND % TWO_32;
    var fraction := ptpNs % Clocks.NANOS_PER_SECOND * TWO_32 / Clocks.NANOS_PER_SECOND % TWO_32;
    assert b[2..4] == U16Be(sequence) && b[4..8] == U32Be(rtp) && b[8..12] == U32Be(seconds);
    assert b[12..16] == U32Be(fraction) && b[16..20] == U32Be(nextRtp) && b[20..] == clockId;
    U32RoundTrip(rtp);
    U32RoundTrip(seconds);
    U32RoundTrip(fraction);
    U32RoundTrip(nextRtp);
    Clocks.PtpFractionIsNtpFraction(ptpNs);
    Clocks.PtpSecondsAreNtpSeconds(ptpNs);
  }

  // ----- What a retransmit request should be answered with -----

  /** Packet j is among the last 512 packets sent. */
  predicate Recent(log: seq<Bytes>, j: int) {
    0 <= j < |log| && |log| - 512 <= j
  }

  ghost predicate Carries(log: seq<Bytes>, j: int, sequence: u16) {
    Recent(log, j) && j % TWO_16 == sequence
  }

  /** The recent packet with this sequence number, if there is one. */
  ghost function Find(log: seq<Bytes>, sequence: u16): Option<Bytes> {
    if j :| Carries(log, j, sequence) then Some(log[j]) else None
  }

  /** The answer for one requested number: its recent packet, or nothing. */
  ghost function AnswerFor(log: seq<Bytes>, sequence: u16): seq<Bytes> {
    match Find(log, sequence)
    case None => []
    case Some(packet) => [RetransmitResponse(packet)]
  }

  ghost function Answers(log: seq<Bytes>, first: u16, count: nat): seq<Bytes> {
    if count == 0 then []
    else Answers(log, first, count - 1) + AnswerFor(log, (first + (count - 1)) % TWO_16)
  }

  /** The recent packets a request asks for. */
  ghost function Wanted(log: seq<Bytes>, first: u16, count: nat): set<int> {
    set j | 0 <= j < |log| && Recent(log, j) && (j - first) % TWO_16 < count
  }

  /** Every logged packet carries its own position, modulo 65536, in its header. */
  ghost predicate Stamped(log: seq<Bytes>) {
    forall j :: 0 <= j < |log| ==> |log[j]| >= 12 && log[j][2..4] == U16Be(j % TWO_16)
  }

  /** Sequence numbers identify recent packets: 512 is far below the wrap at 65536. */
  lemma CarrierUnique(log: seq<Bytes>, i: int, j: int, sequence: u16)
    requires Carries(log, i, sequence) && Carries(log, j, sequence)
    ensures i == j
  {}

  lemma FindIs(log: seq<Bytes>, j: int, sequence: u16)
    requires Carries(log, j, sequence)
    ensures Find(log, sequence) == Some(log[j])
  {
    var i :| Carries(log, i, sequence) && Find(log, sequence) == Some(log[i]);
    CarrierUnique(log, i, j, sequence);
  }

  lemma OffsetIsSequence(j: int, first: u16, offset: nat)
    requires offset < TWO_16
    ensures (j - first) % TWO_16 == offset <==> j % TWO_16 == (first + offset) % TWO_16
  {}

  lemma WantedMember(log: seq<Bytes>, first: u16, count: nat, i: int)
    requires count < TWO_16
    ensures
      var carries := Carries(log, i, (first + count) % TWO_16);
      && (i in Wanted(log, first, count + 1) <==> i in Wanted(log, first, count) || carries)
      && !(i in Wanted(log, first, count) && carries)
  {
    OffsetIsSequence(i, first, count);
  }

  /** Asking for one more number adds the packet that carries it, if a recent one does. */
  lemma WantedStep(log: seq<Bytes>, first: u16, count: nat)
    requires count < TWO_16
    ensures |Wanted(log, first, count + 1)| == |Wanted(log, first, count)|
            + if Find(log, (first + count) % TWO_16).Some? then 1 else 0
  {
    var sequence := (first + count) % TWO_16;
    var before, now := Wanted(log, first, count), Wanted(log, first, count + 1);
    forall i
      ensures i in now <==> i in before || Carries(log, i, sequence)
      ensures !(i in before && Carries(log, i, sequence))
    {
      WantedMember(log, first, count, i);
    }
    if Find(log, sequence).Some? {
      var j :| Carries(log, j, sequence);
      forall i | Carries(log, i, sequence)
        ensures i == j
      {
        CarrierUnique(log, i, j, sequence);
      }
      assert now == before + {j};
    } else {
      assert now == before;
    }
  }

  /** One answer for each wanted packet, neither more nor fewer. */
  lemma {:induction false} AnswerCount(log: seq<Bytes>, first: u16, count: nat)
    requires count <= TWO_16
    ensures |Answers(log, first, count)| == |Wanted(log, first, count)|
  {
    if count == 0 {
      assert Wanted(log, first, 0) == {};
    } else {
      AnswerCount(log, first, count - 1);
      WantedStep(log, first, count - 1);
    }
  }

  lemma {:induction false} IntervalSize(s: set<int>, lo: int, hi: int)
    requires lo <= hi && forall j :: j in s ==> lo <= j < hi
    ensures |s| <= hi - lo
    decreases hi - lo
  {
    if lo == hi {
      assert s == {};
    } else {
      IntervalSize(s - {lo}, lo + 1, hi);
    }
  }

  /** No request, however long, is answered with more than count or 512 packets. */
  lemma {:induction false} AnswerBound(log: seq<Bytes>, first: u16, count: u16)
    ensures |Answers(log, first, count)| <= count
    ensures |Answers(log, first, count)| <= 512
  {
    AnswersNoMoreThanAsked(log, first, count);
    AnswerCount(log, first, count);
    var lo := if |log| < 512 then 0 else |log| - 512;
    IntervalSize(Wanted(log, first, count), lo, |log|);
  }

  lemma {:induction false} AnswersNoMoreThanAsked(log: seq<Bytes>, first: u16, count: nat)
    ensures |Answers(log, first, count)| <= count
  {
    if count > 0 { AnswersNoMoreThanAsked(log, first, count - 1); }
  }

  ghost predicate AnswersWanted(log: seq<Bytes>, first: u16, count: nat, answer: Bytes) {
    exists j :: j in Wanted(log, first, count) && answer == RetransmitResponse(log[j])
  }

  /** Every answer is a wanted packet exactly as logged, never an older one. */
  lemma {:induction false} AnswersAreLogged(log: seq<Bytes>, first: u16, count: nat, k: nat)
    requires count <= TWO_16 && k < |Answers(log, first, count)|
    ensures AnswersWanted(log, first, count, Answers(log, first, count)[k])
  {
    var before := Answers(log, first, count - 1);
    if k < |before| {
      AnswersAreLogged(log, first, count - 1, k);
      var j :| j in Wanted(log, first, count - 1) && before[k] == RetransmitResponse(log[j]);
      WantedMember(log, first, count - 1, j);
    } else {
      var sequence := (first + (count - 1)) % TWO_16;
      var j :| Carries(log, j, sequence);
      FindIs(log, j, sequence);
      WantedMember(log, first, count - 1, j);
    }
  }

  /** And every wanted packet is among the answers. */
  lemma {:induction false} WantedAreAnswered(log: seq<Bytes>, first: u16, count: nat, j: int)
    requires count <= TWO_16 && j in Wanted(log, first, count)
    ensures RetransmitResponse(log[j]) in Answers(log, first, count)
  {
    WantedMember(log, first, count - 1, j);
    if j in Wanted(log, first, count - 1) {
      WantedAreAnswered(log, first, count - 1, j);
    } else {
      FindIs(log, j, (first + (count - 1)) % TWO_16);
    }
  }

  /** A response shows the sequence number of the packet it carries. */
  lemma ResponseStamp(log: seq<Bytes>, j: int)
    requires Stamped(log) && 0 <= j < |log|
    ensures RetransmitResponse(log[j])[..4] == [0x80, 0xD6, j % TWO_16 / 256, j % 256]
    ensures RetransmitResponse(log[j])[4..] == log[j]
  {
    assert RetransmitResponse(log[j])[2..4] == log[j][2..4];
    assert j % TWO_16 % 256 == j % 256;
  }

  /** How far into the request an answer is, by the number in its bytes 2 and 3. */
  function OffsetIn(first: u16, answer: Bytes): nat
    requires |answer| >= 4
  {
    (answer[2] as int * 256 + answer[3] as int - first) % TWO_16
  }

  ghost predicate Ascending(first: u16, answers: seq<Bytes>, below: nat) {
    && (forall k :: 0 <= k < |answers| ==> |answers[k]| >= 4 && OffsetIn(first, answers[k]) < below)
    && (forall k, l :: 0 <= k < l < |answers| ==> OffsetIn(first, answers[k]) < OffsetIn(first, answers[l]))
  }

  lemma OffsetOfAnswer(log: seq<Bytes>, first: u16, j: int, offset: nat)
    requires Stamped(log) && 0 <= j < |log| && offset < TWO_16 && j % TWO_16 == (first + offset) % TWO_16
    ensures |RetransmitResponse(log[j])| >= 4 && OffsetIn(first, RetransmitResponse(log[j])) == offset
  {
    var answer := RetransmitResponse(log[j]);
    ResponseStamp(log, j);
    assert answer[..4][2] == answer[2] && answer[..4][3] == answer[3];
    assert j % 256 == j % TWO_16 % 256;
    assert answer[2] as int * 256 + answer[3] as int == j % TWO_16;
  }

  lemma AscendingSnoc(first: u16, answers: seq<Bytes>, answer: Bytes, offset: nat)
    requires Ascending(first, answers, offset) && |answer| >= 4 && OffsetIn(first, answer) == offset
    ensures Ascending(first, answers + [answer], offset + 1)
  {}

  /** Answers come in the order in which their numbers were asked for, through the wrap of the numbers too. */
  lemma {:induction false} AnswersInOrder(log: seq<Bytes>, first: u16, count: nat)
    requires Stamped(log) && count <= TWO_16
    ensures Ascending(first, Answers(log, first, count), count)
  {
    if count > 0 {
      var sequence := (first + (count - 1)) % TWO_16;
      AnswersInOrder(log, first, count - 1);
      if Find(log, sequence).Some? {
        var j :| Carries(log, j, sequence);
        FindIs(log, j, sequence);
        OffsetOfAnswer(log, first, j, count - 1);
        AscendingSnoc(first, Answers(log, first, count - 1), RetransmitResponse(log[j]), count - 1);
      }
    }
  }

  // ----- The ring -----

  /** The slot of packet j, or of sequence number j: 512 divides 65536, so the two agree. */
  function Slot(j: int): (r: nat)
    ensures r < PACKET_HISTORY_SIZE
  {
    j % PACKET_HISTORY_SIZE
  }

  lemma SlotOfSequence(j: int)
    ensures Slot(j % TWO_16) == Slot(j)
  {
    assert j == j / TWO_16 * 128 * PACKET_HISTORY_SIZE + j % TWO_16;
  }

  lemma RecentSlotsDistinct(log: seq<Bytes>, i: int, j: int)
    requires Recent(log, i) && Recent(log, j) && Slot(i) == Slot(j)
    ensures i == j
  {}

  /** The ring holds exactly the recent packets, each in its slot. */
  ghost predicate Mirrors(ring: seq<Option<Bytes>>, log: seq<Bytes>) {
    && |ring| == PACKET_HISTORY_SIZE
    && (forall j :: Recent(log, j) ==> ring[Slot(j)] == Some(log[j]))
    && (forall i :: |log| <= i < PACKET_HISTORY_SIZE ==> ring[i] == None)
  }

  lemma StampedAfterSend(log: seq<Bytes>, packet: Bytes)
    requires Stamped(log) && |packet| >= 12 && packet[2..4] == U16Be(|log| % TWO_16)
    ensures Stamped(log + [packet]) && |log + [packet]| % TWO_16 == (|log| % TWO_16 + 1) % TWO_16
  {}

  lemma MirrorsAfterSend(ring: seq<Option<Bytes>>, log: seq<Bytes>, packet: Bytes)
    requires Mirrors(ring, log)
    ensures Mirrors(ring[Slot(|log|) := Some(packet)], log + [packet])
  {
    var ring', log' := ring[Slot(|log|) := Some(packet)], log + [packet];
    forall j | Recent(log', j)
      ensures ring'[Slot(j)] == Some(log'[j])
    {
      if j < |log| {
        assert Recent(log, j);
        if Slot(j) == Slot(|log|) { RecentSlotsDistinct(log', j, |log|); }
      }
    }
  }

  /** The newest packet that was put in a slot. */
  lemma Occupant(ring: seq<Option<Bytes>>, log: seq<Bytes>, slot: nat) returns (j: int)
    requires Mirrors(ring, log) && slot < PACKET_HISTORY_SIZE && slot < |log|
    ensures Recent(log, j) && Slot(j) == slot && ring[slot] == Some(log[j])
  {
    j := |log| - 1 - (|log| - 1 - slot) % PACKET_HISTORY_SIZE;
    var q := (|log| - 1 - slot) / PACKET_HISTORY_SIZE;
    assert j == slot + q * PACKET_HISTORY_SIZE;
  }

  /** What the ring holds for a sequence number is what the full log says. */
  lemma SlotAgrees(ring: seq<Option<Bytes>>, log: seq<Bytes>, sequence: u16)
    requires Mirrors(ring, log) && Stamped(log)
    ensures
      var slot := ring[Slot(sequence)];
      match slot
      case None => Find(log, sequence) == None
      case Some(packet) =>
        |packet| >= 4
        && Find(log, sequence) == if FromU16Be(packet[2..4]) == sequence then slot else None
  {
    if Slot(sequence) < |log| {
      var j := Occupant(ring, log, Slot(sequence));
      assert FromU16Be(log[j][2..4]) == j % TWO_16;
      if j % TWO_16 == sequence {
        FindIs(log, j, sequence);
      }
      if i :| Carries(log, i, sequence) {
        SlotOfSequence(i);
        RecentSlotsDistinct(log, i, j);
      }
    } else {
      forall i
        ensures !Carries(log, i, sequence)
      {
        SlotOfSequence(i);
      }
    }
  }

  /** The reply for one requested number, from its slot: none if the slot is empty or out of date. */
  function Reply(slot: Option<Bytes>, sequence: u16): seq<Bytes> {
    match slot
    case None => []
    case Some(original) =>
      if |original| >= 4 && FromU16Be(original[2..4]) != sequence then []
      else [RetransmitResponse(original)]
  }

  /** The replies to a request, read off the ring slot by slot. */
  function Replies(ring: seq<Option<Bytes>>, first: u16, count: nat): seq<Bytes>
    requires |ring| == PACKET_HISTORY_SIZE
  {
    if count == 0 then []
    else
      var sequence := (first + (count - 1)) % TWO_16;
      Replies(ring, first, count - 1) + Reply(ring[Slot(sequence)], sequence)
  }

  ghost predicate SlotsAnswer(ring: seq<Option<Bytes>>, log: seq<Bytes>) {
    |ring| == PACKET_HISTORY_SIZE
    && forall sequence: u16 :: Reply(ring[Slot(sequence)], sequence) == AnswerFor(log, sequence)
  }

  lemma {:induction false} RepliesAreAnswers(ring: seq<Option<Bytes>>, log: seq<Bytes>, first: u16, count: nat)
    requires SlotsAnswer(ring, log)
    ensures Replies(ring, first, count) == Answers(log, first, count)
  {
    if count > 0 {
      RepliesAreAnswers(ring, log, first, count - 1);
    }
  }

  /** The ring answers every request as the full log would. */
  lemma RingRefinesLog(ring: seq<Option<Bytes>>, log: seq<Bytes>, first: u16, count: nat)
    requires Mirrors(ring, log) && Stamped(log)
    ensures Replies(ring, first, count) == Answers(log, first, count)
  {
    forall sequence: u16
      ensures Reply(ring[Slot(sequence)], sequence) == AnswerFor(log, sequence)
    {
      SlotAgrees(ring, log, sequence);
    }
    RepliesAreAnswers(ring, log, first, count);
  }

  lemma {:induction false} RepliesPrefix(ring: seq<Option<Bytes>>, first: u16, m: nat, n: nat)
    requires |ring| == PACKET_HISTORY_SIZE && m <= n
    ensures Replies(ring, first, m) <= Replies(ring, first, n)
    decreases n
  {
    if m < n { RepliesPrefix(ring, first, m, n - 1); }
  }

  /** A reply about to be sent is the next one of the whole answer. */
  lemma RefusedReply(ring: seq<Option<Bytes>>, first: u16, i: nat, count: nat)
    requires |ring| == PACKET_HISTORY_SIZE && i < count
    requires Reply(ring[Slot((first + i) % TWO_16)], (first + i) % TWO_16) != []
    ensures
      var sent, all := Replies(ring, first, i), Replies(ring, first, count);
      |sent| < |all| && sent == all[..|sent|]
  {
    RepliesPrefix(ring, first, i + 1, count);
    RepliesPrefix(ring, first, i, count);
    assert |Replies(ring, first, i + 1)| > |Replies(ring, first, i)|;
  }

  /** How many of the responses the socket accepts before its first failure. */
  ghost function Accepted(total: nat, accepts: nat -> bool, from: nat): (r: nat)
    requires from <= total
    ensures from <= r <= total && (forall k :: from <= k < r ==> accepts(k)) && (r < total ==> !accepts(r))
    decreases total - from
  {
    if from < total && accepts(from) then Accepted(total, accepts, from + 1) else from
  }

  ghost predicate AllAccepted(accepts: nat -> bool, n: nat) {
    forall k: nat :: k < n ==> accepts(k)
  }

  lemma AcceptedIs(total: nat, accepts: nat -> bool, n: nat)
    requires n <= total && AllAccepted(accepts, n) && (n < total ==> !accepts(n))
    ensures Accepted(total, accepts, 0) == n
  {}

  lemma OneMoreAccepted(accepts: nat -> bool, n: nat)
    requires AllAccepted(accepts, n) && accepts(n)
    ensures AllAccepted(accepts, n + 1)
  {}

  /** The sender object: a ring of packets indexed by sequence number modulo its size. */
  class RtpSender {
    const ssrc: u32
    const bound: bool
    var cipher: Option<PacketCipher>
    var controlPort: u16
    var sequence: u16
    var syncSequence: u16
    var firstSyncSent: bool
    const packetHistory: array<Option<Bytes>>
    ghost var log: seq<Bytes>

    ghost predicate Valid()
      reads this, packetHistory
    {
      && packetHistory.Length == PACKET_HISTORY_SIZE
      && sequence == |log| % TWO_16
      && Stamped(log)
      && Mirrors(packetHistory[..], log)
    }

    ghost function View(): Sender
      reads this
    {
      Sender(ssrc, cipher, controlPort, syncSequence, firstSyncSent, log)
    }

    constructor (ssrc: u32, bound: bool, cipher: Option<PacketCipher>, controlPort: u16)
      ensures Valid() && this.bound == bound && fresh(packetHistory)
      ensures View() == Sender(ssrc, cipher, controlPort, 0, false, [])
    {
      this.ssrc, this.bound, this.cipher, this.controlPort := ssrc, bound, cipher, controlPort;
      sequence, syncSequence, firstSyncSent := 0, 0, false;
      packetHistory := new Option<Bytes>[PACKET_HISTORY_SIZE](_ => None);
      log := [];
    }

    method SerializeAudio(payloadType: byte, timestamp: u32, payload: Bytes, marker: bool)
      returns (r: Option<Bytes>)
      requires Valid()
      modifies this`sequence, this`log, packetHistory
      ensures Valid()
      ensures (View(), r) == Prepare(old(View()), payloadType, timestamp, payload, marker)
      ensures r.Some? ==> HeaderBytes(r.value, marker, payloadType, old(sequence), timestamp, ssrc)
    {
      var wire := WirePacket(cipher, ssrc, sequence, payloadType, timestamp, payload, marker);
      if wire.None? {
        return None;
      }
      var serialized := wire.value;
      WirePacketBytes(cipher, ssrc, sequence, payloadType, timestamp, payload, marker, serialized);
      var idx := sequence % PACKET_HISTORY_SIZE;
      SlotOfSequence(|log|);
      MirrorsAfterSend(packetHistory[..], log, serialized);
      StampedAfterSend(log, serialized);
      packetHistory[idx] := Some(serialized);
      assert packetHistory[..] == old(packetHistory[..])[idx := Some(serialized)];
      sequence := (sequence + 1) % TWO_16;
      log := log + [serialized];
      r := packetHistory[idx];
    }

    method PrepareSync(rtp: u32, ntp: u64) returns (r: Option<Bytes>)
      requires Valid()
      modifies this`firstSyncSent, this`syncSequence
      ensures Valid()
      ensures (View(), r) == SyncStep(old(View()), rtp, ntp)
    {
      if controlPort == 0 {
        return None;
      }
      var firstByte: byte := 0x80;
      if !firstSyncSent {
        firstSyncSent := true;
        firstByte := 0x90;
      }
      r := Some([firstByte, 0xd4] + U16Be(syncSequence) + U32Be(rtp) + ToBe(ntp, 8) + U32Be(rtp));
      syncSequence := (syncSequence + 1) % TWO_16;
    }

    method PreparePtpSync(rtp: u32, ptpNs: u64, nextRtp: u32, clockId: Bytes) returns (r: Option<Bytes>)
      requires Valid()
      modifies this`firstSyncSent, this`syncSequence
      ensures Valid()
      ensures (View(), r) == PtpSyncStep(old(View()), rtp, ptpNs, nextRtp, clockId)
    {
      if controlPort == 0 {
        return None;
      }
      var firstByte: byte := 0x80;
      if !firstSyncSent {
        firstSyncSent := true;
        firstByte := 0x90;
      }
      var seconds := ptpNs / Clocks.NANOS_PER_SECOND % TWO_32;
      var fraction := ptpNs % Clocks.NANOS_PER_SECOND * TWO_32 / Clocks.NANOS_PER_SECOND % TWO_32;
      r := Some([firstByte, 0xD7] + U16Be(syncSequence) + U32Be(rtp) + U32Be(seconds) + U32Be(fraction)
                + U32Be(nextRtp) + clockId);
      syncSequence := (syncSequence + 1) % TWO_16;
    }

    method ResetSyncState()
      requires Valid()
      modifies this`firstSyncSent
      ensures Valid() && View() == ResetSync(old(View()))
    {
      firstSyncSent := false;
    }

    /** Walks the requested numbers; `accepts(k)` tells whether the socket takes the k-th response. */
    static method SendReplies(ring: seq<Option<Bytes>>, request: RetransmitRequest, accepts: nat -> bool)
      returns (sent: seq<Bytes>, failed: bool)
      requires |ring| == PACKET_HISTORY_SIZE
      ensures
        var all := Replies(ring, request.firstSequence, request.count);
        var taken := Accepted(|all|, accepts, 0);
        sent == all[..taken] && (failed <==> taken < |all|)
    {
      sent := [];
      ghost var all := Replies(ring, request.firstSequence, request.count);
      var i: nat := 0;
      while i < request.count
        invariant i <= request.count
        invariant sent == Replies(ring, request.firstSequence, i)
        invariant AllAccepted(accepts, |sent|)
      {
        var sequence := (request.firstSequence + i) % TWO_16;
        var slot := ring[sequence % PACKET_HISTORY_SIZE];
        var reply := Reply(slot, sequence);
        if reply != [] {
          if !accepts(|sent|) {
            RefusedReply(ring, request.firstSequence, i, request.count);
            AcceptedIs(|all|, accepts, |sent|);
            return sent, true;
          }
          OneMoreAccepted(accepts, |sent|);
          sent := sent + reply;
        }
        i := i + 1;
      }
      AcceptedIs(|all|, accepts, |sent|);
      failed := false;
    }

    /** Resends what the last 512 packets still hold of the requested range. */
    method HandleRetransmit(request: RetransmitRequest, accepts: nat -> bool)
      returns (sent: seq<Bytes>, r: Result<u16, SendError>)
      requires Valid()
      ensures !bound ==> sent == [] && r == Err(SocketNotBound)
      ensures bound ==>
        var all := Answers(log, request.firstSequence, request.count);
        var taken := Accepted(|all|, accepts, 0);
        && sent == all[..taken]
        && r == if taken == |all| then Ok(|all|) else Err(SocketFailed)
    {
      if !bound {
        return [], Err(SocketNotBound);
      }
      RingRefinesLog(packetHistory[..], log, request.firstSequence, request.count);
      AnswerBound(log, request.firstSequence, request.count);
      var failed;
      sent, failed := SendReplies(packetHistory[..], request, accepts);
      r := if failed then Err(SocketFailed) else Ok(|sent|);
    }
  }
}
