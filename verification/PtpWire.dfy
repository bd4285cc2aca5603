/** PTP from the bytes of its datagrams, at the offsets of IEEE 1588-2008, to what the slave publishes. */
module PtpWire {
  import opened Wrappers
  import opened ByteStrings
  import opened Clocks
  import opened Ptp

  // ----- Datagrams read at fixed offsets -----

  predicate HasType(d: Datagram, port: Port, code: byte, size: nat) {
    d.port == port && |d.data| >= size && size > 0 && d.data[0] % 16 == code
  }

  predicate IsSync(d: Datagram) { HasType(d, EventPort, 0, 34) }

  predicate IsFollowUp(d: Datagram) { HasType(d, GeneralPort, 8, 44) }

  predicate IsDelayResp(d: Datagram) { HasType(d, EventPort, 9, 44) }

  predicate IsAnnounce(d: Datagram) { HasType(d, GeneralPort, 11, 61) }

  /** Four and six bytes in network order, by the general rule. */
  lemma SmallNumbers(s: Bytes)
    ensures |s| == 4 ==> FromU32Be(s) == FromBe(s)
    ensures |s| == 6 ==> FromU48Be(s) == FromBe(s)
  {
    if |s| == 4 {
      FourBytes(s);
    } else if |s| == 6 {
      FourBytes(s[..4]);
      FromBeSnoc(s[..4], s[4]);
      FromBeSnoc(s[..4] + [s[4]], s[5]);
      assert s == s[..4] + [s[4]] + [s[5]];
    }
  }

  /** The stamp of a message: six bytes of seconds at 34 and four of nanoseconds at 40. */
  ghost predicate Stamped(d: Datagram, t: PtpTimestamp) {
    |d.data| >= 44 && t.seconds == FromBe(d.data[34..40]) && t.nanoseconds == FromBe(d.data[40..44])
  }

  /** Exactly these datagrams are signals, whatever else their bytes say. */
  lemma SignalsOfBytes(d: Datagram)
    ensures IsSync(d) ==> Classify(d) == SyncSeen(d.now)
    ensures IsFollowUp(d) ==> Classify(d).FollowUpSeen? && Stamped(d, Classify(d).t1) && Classify(d).now == d.now
    ensures IsDelayResp(d) ==> Classify(d).DelayRespSeen? && Stamped(d, Classify(d).t4)
    ensures !IsSync(d) && !IsFollowUp(d) && !IsDelayResp(d) ==> Classify(d) == Ignored
  {
    var data := Received(d.data);
    if |data| >= 44 {
      var stamp := data[34..44];
      assert stamp == d.data[34..44];
      assert stamp[..6] == d.data[34..40];
      assert stamp[6..10] == d.data[40..44];
      SmallNumbers(d.data[34..40]);
      SmallNumbers(d.data[40..44]);
    }
  }

  /** Their kinds, without their stamps. */
  lemma KindsOfBytes(d: Datagram)
    ensures Classify(d).SyncSeen? <==> IsSync(d)
    ensures Classify(d).FollowUpSeen? <==> IsFollowUp(d)
    ensures Classify(d).DelayRespSeen? <==> IsDelayResp(d)
    ensures IsSync(d) || IsFollowUp(d) ==> Classify(d).now == d.now
  {
    SignalsOfBytes(d);
  }

  /** An Announce is read for its priority and its clock identity. */
  lemma AnnounceOfBytes(d: Datagram)
    ensures ReadAnnounce(d) == if IsAnnounce(d) then Some(Remote(d.data[47], d.data[53..61])) else None
  {
    var data := Received(d.data);
    assert |data| >= 61 ==> data[53..61] == d.data[53..61];
  }

  // ----- Messages as a peer writes them -----

  function TypeByte(t: MessageType): byte {
    match t
    case Sync => 0
    case DelayReq => 1
    case FollowUp => 8
    case DelayResp => 9
    case Announce => 11
    case Signaling => 12
  }

  lemma StampedWire(h: PtpHeader, t: PtpTimestamp, rest: Bytes, d: Datagram)
    requires WellFormed(h) && d.data == SerializeHeader(h) + SerializeTimestamp(t) + rest
    ensures |d.data| >= 44 && d.data[0] == TypeByte(h.messageType)
    ensures t.seconds < 0x1_0000_0000_0000 ==> Stamped(d, t)
  {
    var seconds, nanos := ToBe(t.seconds, 6), U32Be(t.nanoseconds);
    assert d.data[34..40] == seconds && d.data[40..44] == nanos;
    SmallNumbers(seconds);
    SmallNumbers(nanos);
    U32RoundTrip(t.nanoseconds);
    if t.seconds < 0x1_0000_0000_0000 { U48Parts(t.seconds, seconds); }
  }

  lemma ReadByType(t: MessageType, stamp: PtpTimestamp, d: Datagram)
    requires |d.data| >= 44 && d.data[0] == TypeByte(t) && Stamped(d, stamp)
    ensures Classify(d)
            == if d.port == EventPort && t == Sync then SyncSeen(d.now)
               else if d.port == GeneralPort && t == FollowUp then FollowUpSeen(stamp, d.now)
               else if d.port == EventPort && t == DelayResp then DelayRespSeen(stamp)
               else Ignored
  {
    SignalsOfBytes(d);
  }

  /** What a peer's message is to the slave: by its type and port, with the stamp the peer put in. */
  lemma MessagesAreRead(h: PtpHeader, t: PtpTimestamp, rest: Bytes, port: Port, source: Bytes, now: nat)
    requires WellFormed(h) && t.seconds < 0x1_0000_0000_0000
    ensures Classify(Datagram(port, source, SerializeHeader(h) + SerializeTimestamp(t) + rest, now))
            == if port == EventPort && h.messageType == Sync then SyncSeen(now)
               else if port == GeneralPort && h.messageType == FollowUp then FollowUpSeen(t, now)
               else if port == EventPort && h.messageType == DelayResp then DelayRespSeen(t)
               else Ignored
  {
    var d := Datagram(port, source, SerializeHeader(h) + SerializeTimestamp(t) + rest, now);
    StampedWire(h, t, rest, d);
    ReadByType(h.messageType, t, d);
  }

  /** An Announce as a peer writes it: stamp, UTC offset, a reserved byte, priority, quality, priority, identity. */
  lemma AnnouncesAreRead(h: PtpHeader, t: PtpTimestamp, utc: Bytes, priority1: byte, quality: Bytes,
                         priority2: byte, clockId: Bytes, rest: Bytes, source: Bytes, now: nat)
    requires WellFormed(h) && h.messageType == Announce
    requires |utc| == 3 && |quality| == 4 && |clockId| == 8
    ensures
      var body := utc + [priority1] + quality + [priority2] + clockId + rest;
      ReadAnnounce(Datagram(GeneralPort, source, SerializeHeader(h) + SerializeTimestamp(t) + body, now))
      == Some(Remote(priority1, clockId))
  {
    var body := utc + [priority1] + quality + [priority2] + clockId + rest;
    var data := SerializeHeader(h) + SerializeTimestamp(t) + body;
    var d := Datagram(GeneralPort, source, data, now);
    StampedWire(h, t, body, d);
    HeaderRoundTrip(h, []);
    assert data[44..] == body;
    assert body[3] == priority1 && body[9..17] == clockId;
    assert data[47] == data[44..][3] && data[53..61] == data[44..][9..17];
    AnnounceOfBytes(d);
  }

  /** A request as a master reads it: version 2, 44 bytes, sender, number and time of sending. */
  lemma RequestIsRead(sequenceId: u16, sourcePort: Bytes, t3: PtpTimestamp, d: Datagram)
    requires |sourcePort| == 10 && d.data == DelayRequest(sequenceId, sourcePort, t3)
    ensures |d.data| == 44 && d.data[..4] == [1, 2, 0, 44]
    ensures d.data[20..30] == sourcePort && d.data[30] == sequenceId / 256 && d.data[31] == sequenceId % 256
    ensures d.data[32] == 1
    ensures t3.seconds < 0x1_0000_0000_0000 ==> Stamped(d, t3)
  {
    var h := NewHeader(DelayReq, sequenceId).(sourcePort := sourcePort);
    assert SerializeHeader(h) + SerializeTimestamp(t3) + [] == d.data;
    StampedWire(h, t3, [], d);
  }

  // ----- Runs, from the datagrams alone -----

  /** Datagram j is the latest Sync before k, with no Delay_Resp since. */
  ghost predicate LastSync(ds: seq<Datagram>, k: int, j: int) {
    0 <= j < k <= |ds| && IsSync(ds[j]) && forall m :: j < m < k ==> !IsSync(ds[m]) && !IsDelayResp(ds[m])
  }

  /** Datagram i is the latest Follow_Up before k, with no Delay_Resp since. */
  ghost predicate LastFollowUp(ds: seq<Datagram>, k: int, i: int) {
    0 <= i < k <= |ds| && IsFollowUp(ds[i]) && forall m :: i < m < k ==> !IsFollowUp(ds[m]) && !IsDelayResp(ds[m])
  }

  lemma RoundGrows(ds: seq<Datagram>, k: nat)
    requires k < |ds|
    ensures
      var before, signal := Round(Signals(ds[..k])), Classify(ds[k]);
      Round(Signals(ds[..k + 1])) == if signal.DelayRespSeen? then [] else before + [signal]
  {
    SignalsSnoc(ds, k);
    var signals := Signals(ds[..k + 1]);
    assert signals[..|signals| - 1] == Signals(ds[..k]);
  }

  lemma LatestOfSnoc(round: seq<Signal>, signal: Signal)
    ensures LatestSync(round + [signal]) == if signal.SyncSeen? then Some(signal.now) else LatestSync(round)
    ensures LatestFollowUp(round + [signal])
            == if signal.FollowUpSeen? then Some((signal.t1, signal.now)) else LatestFollowUp(round)
  {
    assert (round + [signal])[..|round|] == round;
  }

  lemma LatestGrows(ds: seq<Datagram>, k: nat)
    requires k < |ds|
    ensures
      var before, round, signal := Round(Signals(ds[..k])), Round(Signals(ds[..k + 1])), Classify(ds[k]);
      && LatestSync(round) == (if signal.DelayRespSeen? then None
                               else if signal.SyncSeen? then Some(signal.now) else LatestSync(before))
      && LatestFollowUp(round) == (if signal.DelayRespSeen? then None
                                   else if signal.FollowUpSeen? then Some((signal.t1, signal.now))
                                   else LatestFollowUp(before))
  {
    RoundGrows(ds, k);
    LatestOfSnoc(Round(Signals(ds[..k])), Classify(ds[k]));
  }

  ghost predicate SyncIs(ds: seq<Datagram>, k: nat, latest: Option<nat>) {
    match latest
    case None => forall j :: !LastSync(ds, k, j)
    case Some(now) => exists j :: LastSync(ds, k, j) && ds[j].now == now
  }

  lemma SyncStep(read: Datagram -> Signal, ds: seq<Datagram>, k: nat, before: Option<nat>, latest: Option<nat>)
    requires k < |ds| && SyncIs(ds, k, before)
    requires read(ds[k]).DelayRespSeen? <==> IsDelayResp(ds[k])
    requires read(ds[k]).SyncSeen? <==> IsSync(ds[k])
    requires read(ds[k]).SyncSeen? ==> read(ds[k]).now == ds[k].now
    requires latest == if read(ds[k]).DelayRespSeen? then None
                       else if read(ds[k]).SyncSeen? then Some(read(ds[k]).now) else before
    ensures SyncIs(ds, k + 1, latest)
  {
    var n := k + 1;
    forall j
      ensures LastSync(ds, n, j)
              <==> if IsSync(ds[k]) then j == k else LastSync(ds, k, j) && !IsDelayResp(ds[k])
    {}
    if IsSync(ds[k]) {
      assert LastSync(ds, n, k);
    } else if !IsDelayResp(ds[k]) && latest.Some? {
      var j :| LastSync(ds, k, j) && ds[j].now == latest.value;
      assert LastSync(ds, n, j);
    }
  }

  lemma SyncNext(ds: seq<Datagram>, k: nat, before: Option<nat>, latest: Option<nat>)
    requires k < |ds| && SyncIs(ds, k, before)
    requires latest == if Classify(ds[k]).DelayRespSeen? then None
                       else if Classify(ds[k]).SyncSeen? then Some(Classify(ds[k]).now) else before
    ensures SyncIs(ds, k + 1, latest)
  {
    KindsOfBytes(ds[k]);
    SyncStep(Classify, ds, k, before, latest);
  }

  lemma {:induction false} SyncOfRound(ds: seq<Datagram>, k: nat)
    requires k <= |ds|
    ensures SyncIs(ds, k, LatestSync(Round(Signals(ds[..k]))))
  {
    if k > 0 {
      var n := k - 1;
      SyncOfRound(ds, n);
      LatestGrows(ds, n);
      SyncNext(ds, n, LatestSync(Round(Signals(ds[..n]))), LatestSync(Round(Signals(ds[..n + 1]))));
    }
  }

  /** The latest Follow_Up is one of the run, read as any datagram is. */
  ghost predicate FollowUpIs(read: Datagram -> Signal, ds: seq<Datagram>, k: nat, latest: Option<(PtpTimestamp, nat)>) {
    match latest
    case None => forall i :: !LastFollowUp(ds, k, i)
    case Some((t1, now)) => exists i :: LastFollowUp(ds, k, i) && read(ds[i]) == FollowUpSeen(t1, now)
  }

  lemma FollowUpStep(read: Datagram -> Signal, ds: seq<Datagram>, k: nat, before: Option<(PtpTimestamp, nat)>,
                     latest: Option<(PtpTimestamp, nat)>)
    requires k < |ds| && FollowUpIs(read, ds, k, before)
    requires read(ds[k]).DelayRespSeen? <==> IsDelayResp(ds[k])
    requires read(ds[k]).FollowUpSeen? <==> IsFollowUp(ds[k])
    requires latest == if read(ds[k]).DelayRespSeen? then None
                       else if read(ds[k]).FollowUpSeen? then Some((read(ds[k]).t1, read(ds[k]).now)) else before
    ensures FollowUpIs(read, ds, k + 1, latest)
  {
    var n := k + 1;
    forall i
      ensures LastFollowUp(ds, n, i)
              <==> if IsFollowUp(ds[k]) then i == k else LastFollowUp(ds, k, i) && !IsDelayResp(ds[k])
    {}
    if IsFollowUp(ds[k]) {
      assert LastFollowUp(ds, n, k);
    } else if !IsDelayResp(ds[k]) && latest.Some? {
      var i :| LastFollowUp(ds, k, i) && read(ds[i]) == FollowUpSeen(latest.value.0, latest.value.1);
      assert LastFollowUp(ds, n, i);
    }
  }

  lemma FollowUpNext(ds: seq<Datagram>, k: nat, before: Option<(PtpTimestamp, nat)>,
                     latest: Option<(PtpTimestamp, nat)>)
    requires k < |ds| && FollowUpIs(Classify, ds, k, before)
    requires latest == if Classify(ds[k]).DelayRespSeen? then None
                       else if Classify(ds[k]).FollowUpSeen? then Some((Classify(ds[k]).t1, Classify(ds[k]).now))
                       else before
    ensures FollowUpIs(Classify, ds, k + 1, latest)
  {
    KindsOfBytes(ds[k]);
    FollowUpStep(Classify, ds, k, before, latest);
  }

  lemma {:induction false} FollowUpOfRound(ds: seq<Datagram>, k: nat)
    requires k <= |ds|
    ensures FollowUpIs(Classify, ds, k, LatestFollowUp(Round(Signals(ds[..k]))))
  {
    if k > 0 {
      var n := k - 1;
      FollowUpOfRound(ds, n);
      LatestGrows(ds, n);
      FollowUpNext(ds, n, LatestFollowUp(Round(Signals(ds[..n]))), LatestFollowUp(Round(Signals(ds[..n + 1]))));
    }
  }

  lemma OnlyOneSync(ds: seq<Datagram>, k: nat, j: nat, latest: Option<nat>)
    requires SyncIs(ds, k, latest) && LastSync(ds, k, j)
    ensures latest == Some(ds[j].now)
  {
    var h :| LastSync(ds, k, h) && ds[h].now == latest.value;
    assert h == j;
  }

  lemma OneSync(ds: seq<Datagram>, k: nat, j: nat)
    requires k <= |ds| && LastSync(ds, k, j)
    ensures LatestSync(Round(Signals(ds[..k]))) == Some(ds[j].now)
  {
    SyncOfRound(ds, k);
    OnlyOneSync(ds, k, j, LatestSync(Round(Signals(ds[..k]))));
  }

  lemma ReadAsFollowUp(d: Datagram, t1: PtpTimestamp)
    requires IsFollowUp(d) && Stamped(d, t1)
    ensures Classify(d) == FollowUpSeen(t1, d.now)
  {
    SignalsOfBytes(d);
  }

  lemma OnlyOneLast(read: Datagram -> Signal, ds: seq<Datagram>, k: nat, latest: Option<(PtpTimestamp, nat)>,
                    i: nat, t1: PtpTimestamp, now: nat)
    requires FollowUpIs(read, ds, k, latest) && LastFollowUp(ds, k, i) && read(ds[i]) == FollowUpSeen(t1, now)
    ensures latest == Some((t1, now))
  {
    var h :| LastFollowUp(ds, k, h) && read(ds[h]) == FollowUpSeen(latest.value.0, latest.value.1);
    assert h == i;
  }

  lemma OneFollowUp(ds: seq<Datagram>, k: nat, i: nat, t1: PtpTimestamp)
    requires k <= |ds| && LastFollowUp(ds, k, i) && Stamped(ds[i], t1)
    ensures LatestFollowUp(Round(Signals(ds[..k]))) == Some((t1, ds[i].now))
  {
    FollowUpOfRound(ds, k);
    ReadAsFollowUp(ds[i], t1);
    OnlyOneLast(Classify, ds, k, LatestFollowUp(Round(Signals(ds[..k]))), i, t1, ds[i].now);
  }

  lemma PublishedNext(ds: seq<Datagram>, k: nat)
    requires k < |ds|
    ensures
      var round, signal := Round(Signals(ds[..k])), Classify(ds[k]);
      var sync, followUp := LatestSync(round), LatestFollowUp(round);
      var before := Published(Signals(ds[..k]));
      Published(Signals(ds[..k + 1]))
      == if signal.DelayRespSeen? && sync.Some? && followUp.Some?
         then before + [Offset(followUp.value.0, FromNanos(sync.value), FromNanos(followUp.value.1), signal.t4)]
         else before
  {
    SignalsSnoc(ds, k);
    OneMoreSignal(Signals(ds[..k]), Classify(ds[k]), []);
    PublishesExactly(Signals(ds[..k]), Classify(ds[k]));
  }

  lemma OneDelayResp(d: Datagram, t4: PtpTimestamp)
    requires IsDelayResp(d) && Stamped(d, t4)
    ensures Classify(d) == DelayRespSeen(t4)
  {
    SignalsOfBytes(d);
  }

  /**
   * What a Delay_Resp publishes, from the bytes of the run: the offset made of the stamps in the latest
   * Follow_Up and in the Delay_Resp itself, and of the times when the latest Sync and that Follow_Up were handled.
   */
  lemma PublishedFromBytes(ds: seq<Datagram>, k: nat, i: nat, j: nat, t1: PtpTimestamp, t4: PtpTimestamp)
    requires k < |ds| && IsDelayResp(ds[k]) && LastSync(ds, k, j) && LastFollowUp(ds, k, i)
    requires Stamped(ds[i], t1) && Stamped(ds[k], t4)
    ensures Published(Signals(ds[..k + 1]))
            == Published(Signals(ds[..k])) + [Offset(t1, FromNanos(ds[j].now), FromNanos(ds[i].now), t4)]
  {
    PublishedNext(ds, k);
    OneDelayResp(ds[k], t4);
    OneSync(ds, k, j);
    OneFollowUp(ds, k, i, t1);
  }

  /** Nothing is published by any other datagram, or where a Sync or a Follow_Up is missing. */
  lemma NothingElsePublished(ds: seq<Datagram>, k: nat)
    requires k < |ds|
    requires !IsDelayResp(ds[k]) || (forall m :: !LastSync(ds, k, m)) || (forall m :: !LastFollowUp(ds, k, m))
    ensures Published(Signals(ds[..k + 1])) == Published(Signals(ds[..k]))
  {
    PublishedNext(ds, k);
    SignalsOfBytes(ds[k]);
    SyncOfRound(ds, k);
    FollowUpOfRound(ds, k);
  }

  /** The Follow_Ups among some datagrams. */
  function FollowUps(ds: seq<Datagram>): seq<Datagram> {
    if ds == [] then []
    else
      var last := ds[|ds| - 1];
      FollowUps(ds[..|ds| - 1]) + if IsFollowUp(last) then [last] else []
  }

  /** Request n answers Follow_Up n: numbered from 1 up, wrapping, with the time it was handled. */
  ghost predicate Answered(requests: seq<Bytes>, followUps: seq<Datagram>, sourcePort: Bytes) {
    && |requests| == |followUps|
    && forall n :: 0 <= n < |followUps| ==>
         requests[n] == DelayRequest((n + 1) % 65536, sourcePort, FromNanos(followUps[n].now))
  }

  lemma NextNumber(n: nat)
    ensures (n % 65536 + 1) % TWO_16 == (n + 1) % 65536
  {}

  lemma AnsweredAppend(requests: seq<Bytes>, followUps: seq<Datagram>, sourcePort: Bytes, d: Datagram, request: Bytes)
    requires Answered(requests, followUps, sourcePort)
    requires request == DelayRequest((|followUps| + 1) % 65536, sourcePort, FromNanos(d.now))
    ensures Answered(requests + [request], followUps + [d], sourcePort)
  {}

  lemma AnsweredNext(requests: seq<Bytes>, followUps: seq<Datagram>, sourcePort: Bytes, s: Slave, d: Datagram)
    requires Answered(requests, followUps, sourcePort) && s.sequenceId == |followUps| % 65536
    ensures
      var more := followUps + if IsFollowUp(d) then [d] else [];
      && Answered(WithRequest(requests, s, Classify(d), sourcePort), more, sourcePort)
      && Step(s, Classify(d)).sequenceId == |more| % 65536
  {
    KindsOfBytes(d);
    NextNumber(|followUps|);
    if IsFollowUp(d) {
      AnsweredAppend(requests, followUps, sourcePort, d,
                     DelayRequest((s.sequenceId + 1) % TWO_16, sourcePort, FromNanos(d.now)));
    } else {
      assert followUps + [] == followUps;
    }
  }

  /** Each Follow_Up of a run is answered by one request, and nothing else is. */
  lemma {:induction false} RequestsOfRun(ds: seq<Datagram>, sourcePort: Bytes)
    ensures Run(Signals(ds)).sequenceId == |FollowUps(ds)| % 65536
    ensures Answered(Requests(Signals(ds), sourcePort), FollowUps(ds), sourcePort)
  {
    if ds != [] {
      var k := |ds| - 1;
      RequestsOfRun(ds[..k], sourcePort);
      SignalsSnoc(ds, k);
      assert ds[..k + 1] == ds;
      OneMoreSignal(Signals(ds[..k]), Classify(ds[k]), sourcePort);
      AnsweredNext(Requests(Signals(ds[..k]), sourcePort), FollowUps(ds[..k]), sourcePort,
                   Run(Signals(ds[..k])), ds[k]);
    }
  }
}
