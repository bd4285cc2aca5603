/** PTP slave loops: which stamps make an offset, what it is worth, and when it is published. */
module Ptp {
  import opened Wrappers
  import opened ByteStrings
  import opened Clocks

  const HEADER_LENGTH: nat := 34
  const EVENT_LENGTH: nat := 44
  const ANNOUNCE_LENGTH: nat := 61
  const RECEIVE_LIMIT: nat := 256

  datatype MessageType = Sync | DelayReq | FollowUp | DelayResp | Announce | Signaling

  function TypeCode(t: MessageType): byte {
    match t
    case Sync => 0x00
    case DelayReq => 0x01
    case FollowUp => 0x08
    case DelayResp => 0x09
    case Announce => 0x0B
    case Signaling => 0x0C
  }

  function FromByte(b: byte): Option<MessageType> {
    var code := b % 16;
    if code == 0x00 then Some(Sync)
    else if code == 0x01 then Some(DelayReq)
    else if code == 0x08 then Some(FollowUp)
    else if code == 0x09 then Some(DelayResp)
    else if code == 0x0B then Some(Announce)
    else if code == 0x0C then Some(Signaling)
    else None
  }

  // ----- Timestamps -----

  datatype PtpTimestamp = PtpTimestamp(seconds: u64, nanoseconds: u32)

  function FromNanos(nanos: nat): PtpTimestamp {
    PtpTimestamp(nanos / NANOS_PER_SECOND % TWO_64, nanos % NANOS_PER_SECOND)
  }

  function ToNanos(t: PtpTimestamp): nat {
    t.seconds * NANOS_PER_SECOND + t.nanoseconds
  }

  lemma NanosRoundTrip(nanos: nat)
    ensures ToNanos(FromNanos(nanos)) == nanos <==> nanos / NANOS_PER_SECOND < TWO_64
  {}

  /** Six bytes of seconds and four of nanoseconds. */
  function SerializeTimestamp(t: PtpTimestamp): (r: Bytes)
    ensures |r| == 10
  {
    ToBe(t.seconds, 6) + U32Be(t.nanoseconds)
  }

  function FromU48Be(s: Bytes): (n: nat)
    requires |s| == 6
    ensures n < TWO_16 * TWO_32
  {
    (s[0] as int * 256 + s[1] as int) * TWO_32 + FromU32Be(s[2..6])
  }

  function ParseTimestamp(data: Bytes): Option<PtpTimestamp> {
    if |data| < 10 then None else Some(PtpTimestamp(FromU48Be(data[..6]), FromU32Be(data[6..10])))
  }

  lemma U48Parts(n: nat, s: Bytes)
    requires n < TWO_16 * TWO_32 && s == ToBe(n, 6)
    ensures FromU48Be(s) == n
  {
    var a := n / 256;
    var b := a / 256;
    var c := b / 256;
    var d := c / 256;
    var e := d / 256;
    assert s == ToBe(a, 5) + [n % 256] && ToBe(a, 5) == ToBe(b, 4) + [a % 256];
    assert ToBe(b, 4) == ToBe(c, 3) + [b % 256] && ToBe(c, 3) == ToBe(d, 2) + [c % 256];
    assert ToBe(d, 2) == ToBe(e, 1) + [d % 256] && ToBe(e, 1) == ToBe(e / 256, 0) + [e % 256];
    assert s == [e % 256, d % 256, c % 256, b % 256, a % 256, n % 256];
    assert e < 256;
  }

  /** A stamp is read back from the wire exactly when its seconds fit the six bytes it has there. */
  lemma TimestampRoundTrip(t: PtpTimestamp, rest: Bytes)
    ensures ParseTimestamp(SerializeTimestamp(t) + rest) == Some(t) <==> t.seconds < TWO_16 * TWO_32
  {
    var wire := SerializeTimestamp(t) + rest;
    assert wire[..6] == ToBe(t.seconds, 6) && wire[6..10] == U32Be(t.nanoseconds);
    U32RoundTrip(t.nanoseconds);
    if t.seconds < TWO_16 * TWO_32 { U48Parts(t.seconds, wire[..6]); }
  }

  // ----- Headers -----

  datatype PtpHeader = PtpHeader(
    messageType: MessageType, version: byte, messageLength: u16, domainNumber: byte, flags: u16,
    correction: Bytes, sourcePort: Bytes, sequenceId: u16, controlField: byte, logInterval: byte)

  ghost predicate WellFormed(h: PtpHeader) {
    h.version < 16 && |h.correction| == 8 && |h.sourcePort| == 10
  }

  function ControlField(t: MessageType): byte {
    match t
    case Sync => 0
    case DelayReq => 1
    case FollowUp => 2
    case DelayResp => 3
    case Announce => 5
    case Signaling => 5
  }

  function NewHeader(t: MessageType, sequenceId: u16): PtpHeader {
    PtpHeader(t, 2, 44, 0, 0, Zeros(8), Zeros(10), sequenceId, ControlField(t), 0)
  }

  function SerializeHeader(h: PtpHeader): Bytes {
    [TypeCode(h.messageType), h.version] + U16Be(h.messageLength) + [h.domainNumber, 0] + U16Be(h.flags)
    + h.correction + Zeros(4) + h.sourcePort + U16Be(h.sequenceId) + [h.controlField, h.logInterval]
  }

  function ParseHeader(data: Bytes): Option<PtpHeader> {
    if |data| < HEADER_LENGTH then None
    else
      match FromByte(data[0])
      case None => None
      case Some(t) =>
        Some(PtpHeader(t, data[1] % 16, FromU16Be(data[2..4]), data[4], FromU16Be(data[6..8]),
                       data[8..16], data[20..30], FromU16Be(data[30..32]), data[32], data[33]))
  }

  /** Every well-formed header is read back from its bytes, whatever follows them. */
  lemma HeaderRoundTrip(h: PtpHeader, rest: Bytes)
    requires WellFormed(h)
    ensures |SerializeHeader(h)| == HEADER_LENGTH
    ensures ParseHeader(SerializeHeader(h) + rest) == Some(h)
  {
    var data := SerializeHeader(h) + rest;
    assert data[2..4] == U16Be(h.messageLength);
    assert data[6..8] == U16Be(h.flags);
    assert data[8..16] == h.correction;
    assert data[20..30] == h.sourcePort;
    assert data[30..32] == U16Be(h.sequenceId);
  }

  // ----- The offset and what it is worth -----

  /** Division by two that rounds towards zero. */
  function HalfTowardsZero(x: int): int {
    if x >= 0 then x / 2 else -(-x / 2)
  }

  function Abs(x: int): nat {
    if x < 0 then -x else x
  }

  /** The offset and delay of section 11.3 of IEEE 1588-2008, in the code's fixed-width fields. */
  function OffsetOf(there: int, back: int): ClockOffset {
    var delay := HalfTowardsZero(there - back);
    ClockOffset(CastI64(HalfTowardsZero(there + back)), Abs(delay) / 2 % TWO_64, Abs(delay) % TWO_64)
  }

  function Offset(t1: PtpTimestamp, t2: PtpTimestamp, t3: PtpTimestamp, t4: PtpTimestamp): ClockOffset {
    OffsetOf(ToNanos(t2) - ToNanos(t1), ToNanos(t3) - ToNanos(t4))
  }

  /** The stamps of an exchange when the slave's clock is `theta` ahead of the master's and the
      messages take d1 and d2 nanoseconds. */
  ghost predicate Exchange(theta: int, d1: nat, d2: nat,
                           t1: PtpTimestamp, t2: PtpTimestamp, t3: PtpTimestamp, t4: PtpTimestamp)
  {
    && ToNanos(t2) == ToNanos(t1) + d1 + theta
    && ToNanos(t4) == ToNanos(t3) - theta + d2
  }

  /** The offset and the round trip fit the fields they are reported in. */
  predicate FitsFields(theta: int, d1: nat, d2: nat) {
    && -0x8000_0000_0000_0000 <= HalfTowardsZero(2 * theta + (d1 - d2)) < 0x8000_0000_0000_0000
    && (d1 + d2) / 2 < TWO_64
  }

  lemma CastFits(x: int)
    requires -0x8000_0000_0000_0000 <= x < 0x8000_0000_0000_0000
    ensures CastI64(x) == x
  {}

  lemma SmallMod(x: nat)
    requires x < TWO_64
    ensures x % TWO_64 == x
  {}

  lemma OffsetOfExchange(theta: int, d1: nat, d2: nat)
    requires FitsFields(theta, d1, d2)
    ensures OffsetOf(d1 + theta, theta - d2)
            == ClockOffset(HalfTowardsZero(2 * theta + (d1 - d2)), (d1 + d2) / 4, (d1 + d2) / 2)
  {
    OffsetOfSums(2 * theta + (d1 - d2), d1 + d2, d1 + theta, theta - d2);
  }

  lemma OffsetOfSums(sum: int, trip: nat, there: int, back: int)
    requires there + back == sum && there - back == trip && trip / 2 < TWO_64
    requires -0x8000_0000_0000_0000 <= HalfTowardsZero(sum) < 0x8000_0000_0000_0000
    ensures OffsetOf(there, back) == ClockOffset(HalfTowardsZero(sum), trip / 4, trip / 2)
  {
    CastFits(HalfTowardsZero(sum));
    assert HalfTowardsZero(trip) == trip / 2 && trip / 2 / 2 == trip / 4;
    SmallMod(trip / 2);
    SmallMod(trip / 4);
  }

  /** The published offset misses the true one by at most half the asymmetry of the path, rounding
      aside; so never by more than the reported round trip, and not at all on a symmetric path. */
  lemma OffsetError(theta: int, d1: nat, d2: nat,
                    t1: PtpTimestamp, t2: PtpTimestamp, t3: PtpTimestamp, t4: PtpTimestamp)
    requires Exchange(theta, d1, d2, t1, t2, t3, t4) && FitsFields(theta, d1, d2)
    ensures
      var o := Offset(t1, t2, t3, t4);
      && o.rttNs == (d1 + d2) / 2 && o.errorNs == (d1 + d2) / 4
      && 2 * Abs(o.offsetNs - theta) <= Abs(d1 - d2) + 1
      && Abs(o.offsetNs - theta) <= o.rttNs + 1
      && (d1 == d2 ==> o.offsetNs == theta)
  {
    StampsGiveLegs(theta, d1, d2, t1, t2, t3, t4);
    OffsetOfExchange(theta, d1, d2);
  }

  lemma StampsGiveLegs(theta: int, d1: nat, d2: nat,
                       t1: PtpTimestamp, t2: PtpTimestamp, t3: PtpTimestamp, t4: PtpTimestamp)
    requires Exchange(theta, d1, d2, t1, t2, t3, t4)
    ensures Offset(t1, t2, t3, t4) == OffsetOf(d1 + theta, theta - d2)
  {}

  /**
   * What rounding adds to twice the error of the offset: nothing when the legs add up to an even number,
   * else one nanosecond less or more, as the division rounds the sum towards the difference or away from it.
   */
  function RoundingUp(theta: int, d1: nat, d2: nat): int {
    if (d1 + d2) % 2 == 0 then 0
    else if (2 * theta + d1 - d2 > 0) == (d1 - d2 > 0) then -1
    else 1
  }

  /** The error of the published offset, exactly: half the asymmetry of the path, and the rounding. */
  lemma OffsetErrorIs(theta: int, d1: nat, d2: nat,
                      t1: PtpTimestamp, t2: PtpTimestamp, t3: PtpTimestamp, t4: PtpTimestamp)
    requires Exchange(theta, d1, d2, t1, t2, t3, t4) && FitsFields(theta, d1, d2)
    ensures 2 * Abs(Offset(t1, t2, t3, t4).offsetNs - theta) == Abs(d1 - d2) + RoundingUp(theta, d1, d2)
  {
    StampsGiveLegs(theta, d1, d2, t1, t2, t3, t4);
    OffsetOfExchange(theta, d1, d2);
  }

  /** The reported error bounds the error of the offset for exactly these legs. */
  lemma ErrorFieldBoundsIff(theta: int, d1: nat, d2: nat,
                            t1: PtpTimestamp, t2: PtpTimestamp, t3: PtpTimestamp, t4: PtpTimestamp)
    requires Exchange(theta, d1, d2, t1, t2, t3, t4) && FitsFields(theta, d1, d2)
    ensures
      var o := Offset(t1, t2, t3, t4);
      Abs(o.offsetNs - theta) <= o.errorNs
      <==> Abs(d1 - d2) + RoundingUp(theta, d1, d2) <= 2 * ((d1 + d2) / 4)
  {
    OffsetErrorIs(theta, d1, d2, t1, t2, t3, t4);
    OffsetError(theta, d1, d2, t1, t2, t3, t4);
  }

  lemma HalfAtMost(m: nat, h: nat)
    ensures m <= h / 2 <==> 2 * m <= h
  {}

  /** With half the sum h, the legs are h + m and h - m. */
  lemma EvenLegs(d1: nat, d2: nat)
    requires (d1 + d2) % 2 == 0
    ensures Abs(d1 - d2) <= 2 * ((d1 + d2) / 4) <==> d1 <= 3 * d2 && d2 <= 3 * d1
  {
    var h: nat := (d1 + d2) / 2;
    var m: nat := if d1 >= h then d1 - h else h - d1;
    assert d1 + d2 == 2 * h && Abs(d1 - d2) == 2 * m;
    assert (d1 + d2) / 4 == h / 2;
    HalfAtMost(m, h);
  }

  /** Rounding aside: it does exactly when neither leg takes more than three times the other. */
  lemma ErrorFieldBoundsEvenIff(theta: int, d1: nat, d2: nat,
                                t1: PtpTimestamp, t2: PtpTimestamp, t3: PtpTimestamp, t4: PtpTimestamp)
    requires Exchange(theta, d1, d2, t1, t2, t3, t4) && FitsFields(theta, d1, d2) && (d1 + d2) % 2 == 0
    ensures
      var o := Offset(t1, t2, t3, t4);
      Abs(o.offsetNs - theta) <= o.errorNs <==> d1 <= 3 * d2 && d2 <= 3 * d1
  {
    ErrorFieldBoundsIff(theta, d1, d2, t1, t2, t3, t4);
    EvenLegs(d1, d2);
  }

  lemma HalfOfDouble(x: int)
    ensures HalfTowardsZero(2 * x) == x
  {}

  /** With the whole delay on one leg the offset is off by the full round trip, twice the reported error. */
  lemma ErrorFieldIsExceeded(theta: int, d: nat, t1: PtpTimestamp, t2: PtpTimestamp,
                             t3: PtpTimestamp, t4: PtpTimestamp)
    requires d > 0 && Exchange(theta, 4 * d, 0, t1, t2, t3, t4) && FitsFields(theta, 4 * d, 0)
    ensures
      var o := Offset(t1, t2, t3, t4);
      o.offsetNs - theta == o.rttNs == 2 * o.errorNs > o.errorNs
  {
    StampsGiveLegs(theta, 4 * d, 0, t1, t2, t3, t4);
    OffsetOfExchange(theta, 4 * d, 0);
    HalfOfDouble(theta + 2 * d);
    assert 2 * theta + (4 * d - 0) == 2 * (theta + 2 * d);
    assert (4 * d + 0) / 4 == d && (4 * d + 0) / 2 == 2 * d;
  }

  // ----- Adding the offset to the clock -----

  /** The published offset is the negative of the slave's lead, as the code that adds it needs it to be. */
  predicate Corrects(theta: int, d1: nat, d2: nat) {
    HalfTowardsZero(2 * theta + (d1 - d2)) == -theta
  }

  lemma AddedTime(m: u64, x: int)
    ensures (m + x) % TWO_64 == m <==> x % TWO_64 == 0
  {}

  /** The cast to 64 signed bits changes nothing when the sum is taken modulo 2^64. */
  lemma CastAdded(local: u64, x: int)
    ensures (local + CastI64(x)) % TWO_64 == (local + x) % TWO_64
  {}

  lemma SmallSum(theta: int, half: int)
    requires Abs(theta) < 0x8000_0000_0000_0000
    requires -0x8000_0000_0000_0000 <= half < 0x8000_0000_0000_0000
    ensures (theta + half) % TWO_64 == 0 <==> half == -theta
  {}

  /**
   * The published offset is the slave's lead over the master, give or take the asymmetry of the path, and it
   * is added to the slave's clock. For all leads and legs, even where the cast wraps, that gives the master's
   * time exactly when lead and offset cancel.
   */
  lemma AddingTheOffset(masterNs: u64, theta: int, d1: nat, d2: nat,
                        t1: PtpTimestamp, t2: PtpTimestamp, t3: PtpTimestamp, t4: PtpTimestamp)
    requires Exchange(theta, d1, d2, t1, t2, t3, t4) && 0 <= masterNs + theta < TWO_64
    ensures ApplyOffset(masterNs + theta, Offset(t1, t2, t3, t4)) == masterNs
            <==> (theta + HalfTowardsZero(2 * theta + (d1 - d2))) % TWO_64 == 0
  {
    StampsGiveLegs(theta, d1, d2, t1, t2, t3, t4);
    var half := HalfTowardsZero(2 * theta + (d1 - d2));
    assert (d1 + theta) + (theta - d2) == 2 * theta + (d1 - d2);
    CastAdded(masterNs + theta, half);
    AddedTime(masterNs, theta + half);
  }

  /** Where the lead and the offset fit their fields, that is when the offset is the lead with its sign changed. */
  lemma OffsetCorrectsIff(masterNs: u64, theta: int, d1: nat, d2: nat,
                          t1: PtpTimestamp, t2: PtpTimestamp, t3: PtpTimestamp, t4: PtpTimestamp)
    requires Exchange(theta, d1, d2, t1, t2, t3, t4) && 0 <= masterNs + theta < TWO_64
    requires FitsFields(theta, d1, d2) && Abs(theta) < 0x8000_0000_0000_0000
    ensures ApplyOffset(masterNs + theta, Offset(t1, t2, t3, t4)) == masterNs <==> Corrects(theta, d1, d2)
  {
    AddingTheOffset(masterNs, theta, d1, d2, t1, t2, t3, t4);
    SmallSum(theta, HalfTowardsZero(2 * theta + (d1 - d2)));
  }

  /** Where nothing is rounded: when the way back takes longer by four times the lead. */
  lemma CorrectsEvenly(theta: int, d1: nat, d2: nat)
    requires (d1 + d2) % 2 == 0
    ensures Corrects(theta, d1, d2) <==> 4 * theta == d2 - d1
  {}

  /** So on a symmetric path the time comes out right only if there is no lead to correct. */
  lemma SymmetricPathCorrects(theta: int, d: nat)
    ensures Corrects(theta, d, d) <==> theta == 0
  {
    CorrectsEvenly(theta, d, d);
  }

  /** Without a lead an unequal path puts the time wrong, and with one it may put it right. */
  lemma AsymmetryDecides()
    ensures !Corrects(0, 4, 0) && Corrects(1, 0, 4)
  {}

  // ----- Datagrams -----

  datatype Port = EventPort | GeneralPort

  /** A received datagram, its sender, and the local clock when it is handled. */
  datatype Datagram = Datagram(port: Port, source: Bytes, data: Bytes, now: nat)

  datatype Signal =
    | SyncSeen(now: nat)
    | FollowUpSeen(t1: PtpTimestamp, now: nat)
    | DelayRespSeen(t4: PtpTimestamp)
    | Ignored

  function Received(data: Bytes): Bytes {
    if |data| <= RECEIVE_LIMIT then data else data[..RECEIVE_LIMIT]
  }

  /** What a datagram means to a slave. */
  function Classify(d: Datagram): Signal {
    var data := Received(d.data);
    match ParseHeader(data)
    case None => Ignored
    case Some(h) =>
      if d.port == EventPort && h.messageType == Sync then SyncSeen(d.now)
      else if |data| < EVENT_LENGTH then Ignored
      else
        match ParseTimestamp(data[34..44])
        case None => Ignored
        case Some(t) =>
          if d.port == EventPort && h.messageType == DelayResp then DelayRespSeen(t)
          else if d.port == GeneralPort && h.messageType == FollowUp then FollowUpSeen(t, d.now)
          else Ignored
  }

  // ----- The slave as a step machine -----

  datatype Slave = Slave(
    t1: Option<PtpTimestamp>, t2: Option<PtpTimestamp>, t3: Option<PtpTimestamp>, sequenceId: u16)

  const NEW_SLAVE := Slave(None, None, None, 0)

  function Step(s: Slave, signal: Signal): Slave {
    match signal
    case SyncSeen(now) => s.(t2 := Some(FromNanos(now)))
    case FollowUpSeen(t1, now) =>
      s.(t1 := Some(t1), t3 := Some(FromNanos(now)), sequenceId := (s.sequenceId + 1) % TWO_16)
    case DelayRespSeen(_) => s.(t1 := None, t2 := None, t3 := None)
    case Ignored => s
  }

  function Publishes(s: Slave, signal: Signal): Option<ClockOffset> {
    match signal
    case DelayRespSeen(t4) =>
      if s.t1.Some? && s.t2.Some? && s.t3.Some? then
        Some(Offset(s.t1.value, s.t2.value, s.t3.value, t4))
      else None
    case _ => None
  }

  function Run(signals: seq<Signal>): Slave {
    if signals == [] then NEW_SLAVE else Step(Run(signals[..|signals| - 1]), signals[|signals| - 1])
  }

  /** All offsets published over a run, in order. */
  function Published(signals: seq<Signal>): seq<ClockOffset> {
    if signals == [] then []
    else
      var front := signals[..|signals| - 1];
      WithOffset(Published(front), Run(front), signals[|signals| - 1])
  }

  // ----- The same, told from the history alone -----

  /** The signals since the last Delay_Resp. */
  function Round(signals: seq<Signal>): seq<Signal> {
    if signals == [] || signals[|signals| - 1].DelayRespSeen? then []
    else Round(signals[..|signals| - 1]) + [signals[|signals| - 1]]
  }

  /** When the latest Sync of a round was handled. */
  function LatestSync(round: seq<Signal>): Option<nat> {
    if round == [] then None
    else
      match round[|round| - 1]
      case SyncSeen(now) => Some(now)
      case _ => LatestSync(round[..|round| - 1])
  }

  /** The latest Follow_Up of a round: its stamp and when it was handled. */
  function LatestFollowUp(round: seq<Signal>): Option<(PtpTimestamp, nat)> {
    if round == [] then None
    else
      match round[|round| - 1]
      case FollowUpSeen(t1, now) => Some((t1, now))
      case _ => LatestFollowUp(round[..|round| - 1])
  }

  /** The stamps held are those of the round, and t1 is set exactly when t3 is. */
  ghost predicate HoldsRound(s: Slave, round: seq<Signal>) {
    && (s.t1.Some? <==> s.t3.Some?)
    && (s.t2 == match LatestSync(round) case None => None case Some(now) => Some(FromNanos(now)))
    && (s.t1 == match LatestFollowUp(round) case None => None case Some((t1, _)) => Some(t1))
    && (s.t3 == match LatestFollowUp(round) case None => None case Some((_, now)) => Some(FromNanos(now)))
  }

  lemma HoldsNext(s: Slave, round: seq<Signal>, signal: Signal)
    requires HoldsRound(s, round)
    ensures HoldsRound(Step(s, signal), if signal.DelayRespSeen? then [] else round + [signal])
  {
    assert (round + [signal])[..|round|] == round;
  }

  /** In every run the stamps held are those of the current round. */
  lemma {:induction false} StampsAreOfTheRound(signals: seq<Signal>)
    ensures HoldsRound(Run(signals), Round(signals))
  {
    if signals != [] {
      var front, last := signals[..|signals| - 1], signals[|signals| - 1];
      StampsAreOfTheRound(front);
      HoldsNext(Run(front), Round(front), last);
    }
  }

  /** An offset is published at a Delay_Resp exactly when its round held a Sync and a Follow_Up, and it
      is made of the latest of each; nothing else publishes. */
  lemma PublishesExactly(signals: seq<Signal>, signal: Signal)
    ensures
      var sync, followUp := LatestSync(Round(signals)), LatestFollowUp(Round(signals));
      Publishes(Run(signals), signal)
      == if signal.DelayRespSeen? && sync.Some? && followUp.Some?
         then Some(Offset(followUp.value.0, FromNanos(sync.value), FromNanos(followUp.value.1), signal.t4))
         else None
  {
    StampsAreOfTheRound(signals);
  }

  /** Within a round a Sync and a Follow_Up may be handled in either order. */
  lemma OrderWithinRound(s: Slave, syncNow: nat, t1: PtpTimestamp, followUpNow: nat)
    ensures Step(Step(s, SyncSeen(syncNow)), FollowUpSeen(t1, followUpNow))
            == Step(Step(s, FollowUpSeen(t1, followUpNow)), SyncSeen(syncNow))
  {}

  // ----- The loops -----

  function Signals(ds: seq<Datagram>): seq<Signal> {
    seq(|ds|, i requires 0 <= i < |ds| => Classify(ds[i]))
  }

  /** The datagrams of one sender. */
  function From(source: Bytes, ds: seq<Datagram>): seq<Datagram> {
    if ds == [] then []
    else
      var last := ds[|ds| - 1];
      From(source, ds[..|ds| - 1]) + if last.source == source then [last] else []
  }

  function DelayRequest(sequenceId: u16, sourcePort: Bytes, t3: PtpTimestamp): Bytes {
    SerializeHeader(NewHeader(DelayReq, sequenceId).(sourcePort := sourcePort)) + SerializeTimestamp(t3)
  }

  /** One Delay_Req for each Follow_Up, numbered from 1. */
  function Requests(signals: seq<Signal>, sourcePort: Bytes): seq<Bytes> {
    if signals == [] then []
    else
      var front := signals[..|signals| - 1];
      WithRequest(Requests(front, sourcePort), Run(front), signals[|signals| - 1], sourcePort)
  }

  /** What one more signal adds to a run. */
  lemma OneMoreSignal(signals: seq<Signal>, signal: Signal, sourcePort: Bytes)
    ensures
      var more := signals + [signal];
      && Run(more) == Step(Run(signals), signal)
      && Published(more) == WithOffset(Published(signals), Run(signals), signal)
      && Requests(more, sourcePort) == WithRequest(Requests(signals, sourcePort), Run(signals), signal, sourcePort)
  {
    assert (signals + [signal])[..|signals|] == signals;
  }

  function WithOffset(published: seq<ClockOffset>, s: Slave, signal: Signal): seq<ClockOffset> {
    match Publishes(s, signal)
    case None => published
    case Some(offset) => published + [offset]
  }

  function WithRequest(requests: seq<Bytes>, s: Slave, signal: Signal, sourcePort: Bytes): seq<Bytes> {
    match signal
    case FollowUpSeen(_, now) =>
      requests + [DelayRequest((s.sequenceId + 1) % TWO_16, sourcePort, FromNanos(now))]
    case _ => requests
  }

  lemma FromSnoc(source: Bytes, ds: seq<Datagram>, i: nat)
    requires i < |ds|
    ensures Signals(From(source, ds[..i + 1]))
            == if ds[i].source == source then Signals(From(source, ds[..i])) + [Classify(ds[i])]
               else Signals(From(source, ds[..i]))
  {
    assert ds[..i + 1][..i] == ds[..i];
    assert From(source, ds[..i]) + [] == From(source, ds[..i]);
  }

  lemma SignalsSnoc(ds: seq<Datagram>, i: nat)
    requires i < |ds|
    ensures Signals(ds[..i + 1]) == Signals(ds[..i]) + [Classify(ds[i])]
  {}

  /** The slave's event loop, over the datagrams received so far. */
  method RunPtpSlave(ds: seq<Datagram>) returns (published: seq<ClockOffset>, requests: seq<Bytes>)
    ensures published == Published(Signals(ds))
    ensures requests == Requests(Signals(ds), Zeros(10))
  {
    published, requests := [], [];
    var s := NEW_SLAVE;
    for i := 0 to |ds|
      invariant s == Run(Signals(ds[..i]))
      invariant published == Published(Signals(ds[..i]))
      invariant requests == Requests(Signals(ds[..i]), Zeros(10))
    {
      SignalsSnoc(ds, i);
      var signal := Classify(ds[i]);
      OneMoreSignal(Signals(ds[..i]), signal, Zeros(10));
      s, published, requests := Handle(s, signal, Zeros(10), published, requests);
    }
    assert ds[..|ds|] == ds;
  }

  /** One turn of either slave loop. */
  method Handle(slave: Slave, signal: Signal, sourcePort: Bytes,
                publishedBefore: seq<ClockOffset>, requestsBefore: seq<Bytes>)
    returns (s: Slave, published: seq<ClockOffset>, requests: seq<Bytes>)
    ensures s == Step(slave, signal)
    ensures published == WithOffset(publishedBefore, slave, signal)
    ensures requests == WithRequest(requestsBefore, slave, signal, sourcePort)
  {
    s, published, requests := slave, publishedBefore, requestsBefore;
    match signal {
      case SyncSeen(now) =>
        s := s.(t2 := Some(FromNanos(now)));
      case FollowUpSeen(t1, now) =>
        s := s.(t1 := Some(t1));
        s := s.(sequenceId := (s.sequenceId + 1) % TWO_16);
        s := s.(t3 := Some(FromNanos(now)));
        requests := requests + [DelayRequest(s.sequenceId, sourcePort, s.t3.value)];
      case DelayRespSeen(t4) =>
        if s.t1.Some? && s.t2.Some? && s.t3.Some? {
          published := published + [Offset(s.t1.value, s.t2.value, s.t3.value, t4)];
        }
        s := s.(t1 := None);
        s := s.(t2 := None);
        s := s.(t3 := None);
      case Ignored =>
    }
  }

  /** The slave loop after negotiation: the same machine, deaf to everyone but the master. */
  method RunBmcaSlave(master: Bytes, sourcePort: Bytes, ds: seq<Datagram>)
    returns (published: seq<ClockOffset>, requests: seq<Bytes>)
    ensures published == Published(Signals(From(master, ds)))
    ensures requests == Requests(Signals(From(master, ds)), sourcePort)
  {
    published, requests := [], [];
    var s := NEW_SLAVE;
    for i := 0 to |ds|
      invariant s == Run(Signals(From(master, ds[..i])))
      invariant published == Published(Signals(From(master, ds[..i])))
      invariant requests == Requests(Signals(From(master, ds[..i])), sourcePort)
    {
      FromSnoc(master, ds, i);
      if ds[i].source != master {
        continue;
      }
      OneMoreSignal(Signals(From(master, ds[..i])), Classify(ds[i]), sourcePort);
      s, published, requests := Handle(s, Classify(ds[i]), sourcePort, published, requests);
    }
    assert ds[..|ds|] == ds;
  }

  // ----- Who becomes master -----

  datatype Remote = Remote(priority1: byte, clockId: Bytes)

  /** What is assumed of a peer that has announced nothing before the deadline. */
  function SilentRemote(): Remote {
    Remote(255, Zeros(8))
  }

  function ReadAnnounce(d: Datagram): Option<Remote> {
    var data := Received(d.data);
    match ParseHeader(data)
    case None => None
    case Some(h) =>
      if d.port == GeneralPort && h.messageType == Announce && |data| >= ANNOUNCE_LENGTH then
        Some(Remote(data[47], data[53..61]))
      else None
  }

  /** The master announces nothing in the first k datagrams. */
  ghost predicate SilentBefore(read: Datagram -> Option<Remote>, master: Bytes, ds: seq<Datagram>, k: int)
    requires k <= |ds|
  {
    forall j :: 0 <= j < k ==> ds[j].source != master || read(ds[j]).None?
  }

  /** Datagram i is the first Announce of the master's. */
  ghost predicate FirstAnnounce(read: Datagram -> Option<Remote>, master: Bytes, ds: seq<Datagram>, i: int) {
    0 <= i < |ds| && ds[i].source == master && read(ds[i]).Some? && SilentBefore(read, master, ds, i)
  }

  /** The first Announce decides, and without one the peer is taken to be silent. */
  ghost predicate Announced(read: Datagram -> Option<Remote>, master: Bytes, ds: seq<Datagram>, remote: Remote) {
    && (forall i :: FirstAnnounce(read, master, ds, i) ==> Some(remote) == read(ds[i]))
    && ((forall i :: !FirstAnnounce(read, master, ds, i)) ==> remote == Remote(255, Zeros(8)))
  }

  lemma SilentNext(read: Datagram -> Option<Remote>, master: Bytes, ds: seq<Datagram>, i: nat)
    requires i < |ds| && SilentBefore(read, master, ds, i)
    requires ds[i].source != master || read(ds[i]).None?
    ensures SilentBefore(read, master, ds, i + 1)
  {}

  lemma NeverAnnounced(read: Datagram -> Option<Remote>, master: Bytes, ds: seq<Datagram>)
    requires SilentBefore(read, master, ds, |ds|)
    ensures Announced(read, master, ds, SilentRemote())
  {}

  lemma AnnouncedAt(read: Datagram -> Option<Remote>, master: Bytes, ds: seq<Datagram>, i: nat, remote: Remote)
    requires FirstAnnounce(read, master, ds, i) && read(ds[i]) == Some(remote)
    ensures Announced(read, master, ds, remote)
  {
    forall j | FirstAnnounce(read, master, ds, j)
      ensures j == i
    {}
  }

  /** The negotiation, over the datagrams that arrive before its deadline. */
  method Negotiate(master: Bytes, priority1: byte, ds: seq<Datagram>) returns (weAreMaster: bool, remote: Remote)
    ensures Announced(ReadAnnounce, master, ds, remote)
    ensures weAreMaster <==> priority1 < remote.priority1
  {
    remote := SilentRemote();
    var i := 0;
    while i < |ds|
      invariant 0 <= i <= |ds| && remote == SilentRemote() && SilentBefore(ReadAnnounce, master, ds, i)
    {
      if ds[i].source == master {
        var announce := ReadAnnounce(ds[i]);
        if announce.Some? {
          remote := announce.value;
          AnnouncedAt(ReadAnnounce, master, ds, i, remote);
          weAreMaster := priority1 < remote.priority1;
          return;
        }
      }
      SilentNext(ReadAnnounce, master, ds, i);
      i := i + 1;
    }
    NeverAnnounced(ReadAnnounce, master, ds);
    weAreMaster := priority1 < remote.priority1;
  }
}
