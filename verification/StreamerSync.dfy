/** When sync packets and markers are sent. */
module StreamerSync {
  import opened Wrappers
  import opened ByteStrings
  import opened RtpSenders
  import opened Clocks
  import opened AudioBuffers
  import opened LiveDecoders
  import opened Encoders
  import ModArith
  import opened StreamerRuns
  import opened Streamers

  // ----- Sync cadence -----

  /** The last message before which a sync was due, or -1. */
  function LastSync(sent: seq<Message>): (r: int)
    ensures -1 <= r < |sent|
    ensures r >= 0 ==> sent[r].needSync
    ensures forall j :: r < j < |sent| ==> !sent[j].needSync
  {
    if sent == [] then -1
    else if sent[|sent| - 1].needSync then |sent| - 1
    else LastSync(sent[..|sent| - 1])
  }

  /**
   * Message j has timestamp j packets' worth of frames, and a sync is due with it exactly when it is first
   * since the start or a flush, or when the last one was at an RTP time of 0, or a full second ago.
   * Times are true sample counts here, never wrapped.
   */
  ghost predicate Timely(c: Config, sent: seq<Message>, j: nat)
    requires j < |sent|
  {
    var m, last := sent[j], LastSync(sent[..j]);
    && m.timestamp == j * c.format.framesPerPacket
    && (j == 0 ==> m.needSync)
    && (j > 0 ==>
          && last >= 0
          && m.timestamp - sent[last].timestamp < c.format.sampleRate + c.format.framesPerPacket
          && (m.needSync <==>
                || m.marker
                || sent[last].timestamp % TWO_32 == 0
                || m.timestamp - sent[last].timestamp >= c.format.sampleRate))
  }

  ghost predicate OnTime(c: Config, sent: seq<Message>) {
    forall j :: 0 <= j < |sent| ==> Timely(c, sent, j)
  }

  /** The last sync and its distance, as the program knows them: wrapped, and less than a second ago. */
  ghost predicate Tracks(c: Config, sent: seq<Message>, lastSyncRtp: u32) {
    sent != [] ==>
      var last := LastSync(sent);
      && last >= 0 && lastSyncRtp == sent[last].timestamp % TWO_32
      && sent[|sent| - 1].timestamp - sent[last].timestamp < c.format.sampleRate
  }

  ghost predicate Scheduled(c: Config, s: Streamer) {
    && s.senders != []
    && OnTime(c, s.sent)
    && (s.status != Error ==> |s.encoded| == |s.sent|)
    && (s.sent == [] ==> !s.firstPacketSent)
    && Tracks(c, s.sent, s.lastSyncRtp)
  }

  /** A rate and packet size for which a second and a packet fit the 32 bits of an RTP timestamp. */
  predicate Clocked(c: Config) {
    c.format.sampleRate > 0 && c.format.sampleRate + c.format.framesPerPacket <= TWO_32
  }

  /** Subtracting wrapped timestamps gives the true distance while that fits 32 bits. */
  lemma WrappedDistance(now: nat, last: nat)
    requires last <= now < last + TWO_32
    ensures (now % TWO_32 - last % TWO_32) % TWO_32 == now - last
  {}

  lemma TimelyEarlier(c: Config, sent: seq<Message>, m: Message, j: nat)
    requires j < |sent| && Timely(c, sent, j)
    ensures Timely(c, sent + [m], j)
  {
    assert (sent + [m])[..j] == sent[..j];
  }

  /** The wrapped test is the true one: the last sync is less than a second and a packet ago. */
  lemma TrueTest(c: Config, n: nat, last: nat, now: nat, synced: nat, previous: nat)
    requires Clocked(c) && last < n
    requires synced == last * c.format.framesPerPacket && previous == (n - 1) * c.format.framesPerPacket
    requires now == n * c.format.framesPerPacket && previous - synced < c.format.sampleRate
    ensures now - synced < c.format.sampleRate + c.format.framesPerPacket
    ensures (now % TWO_32 - synced % TWO_32) % TWO_32 == now - synced
  {
    var step := c.format.framesPerPacket;
    assert n * step == (n - 1) * step + step;
    ModArith.MulMonotone(last, n, step);
    WrappedDistance(now, synced);
  }

  lemma LastSyncAppend(sent: seq<Message>, m: Message)
    ensures LastSync(sent + [m]) == if m.needSync then |sent| else LastSync(sent)
  {
    assert (sent + [m])[..|sent|] == sent;
  }

  /** The decision taken on wrapped timestamps is the one true distances call for. */
  lemma NextIsTimely(c: Config, sent: seq<Message>, m: Message, lastSyncRtp: u32)
    requires Clocked(c) && OnTime(c, sent) && Tracks(c, sent, lastSyncRtp)
    requires m.timestamp == |sent| * c.format.framesPerPacket
    requires m.needSync == NeedSync(m.marker, lastSyncRtp, m.timestamp % TWO_32, c.format.sampleRate)
    requires sent == [] ==> m.marker
    ensures Timely(c, sent + [m], |sent|)
  {
    assert (sent + [m])[..|sent|] == sent;
    if sent != [] {
      var last := LastSync(sent);
      assert Timely(c, sent, |sent| - 1) && Timely(c, sent, last);
      TrueTest(c, |sent|, last, m.timestamp, sent[last].timestamp, sent[|sent| - 1].timestamp);
    }
  }

  lemma NextIsTracked(c: Config, sent: seq<Message>, m: Message, lastSyncRtp: u32)
    requires Clocked(c) && Tracks(c, sent, lastSyncRtp) && Timely(c, sent + [m], |sent|)
    requires m.needSync == NeedSync(m.marker, lastSyncRtp, m.timestamp % TWO_32, c.format.sampleRate)
    ensures Tracks(c, sent + [m], if m.needSync then m.timestamp % TWO_32 else lastSyncRtp)
  {
    assert (sent + [m])[..|sent|] == sent;
    LastSyncAppend(sent, m);
  }

  lemma OnTimeAppend(c: Config, sent: seq<Message>, m: Message)
    requires OnTime(c, sent) && Timely(c, sent + [m], |sent|)
    ensures OnTime(c, sent + [m])
  {
    forall j | 0 <= j < |sent|
      ensures Timely(c, sent + [m], j)
    {
      TimelyEarlier(c, sent, m, j);
    }
  }

  lemma ScheduledAfterSend(c: Config, s: Streamer, t: Streamer)
    requires Clocked(c) && Scheduled(c, s) && Sends(c, s, t)
    requires s.encoder.timestamp == |s.encoded| * c.format.framesPerPacket
    ensures Scheduled(c, t)
  {
    var m := t.sent[|s.sent|];
    assert t.sent == s.sent + [m];
    NextIsTimely(c, s.sent, m, s.lastSyncRtp);
    NextIsTracked(c, s.sent, m, s.lastSyncRtp);
    OnTimeAppend(c, s.sent, m);
  }

  lemma ScheduledAfterAdvance(c: Config, s: Streamer, t: Streamer)
    requires Clocked(c) && Scheduled(c, s) && Advances(c, s, t)
    requires s.encoder.timestamp == |s.encoded| * c.format.framesPerPacket
    ensures Scheduled(c, t)
  {
    if Sends(c, s, t) { ScheduledAfterSend(c, s, t); }
  }

  lemma ScheduledAfterStep(c: Config, s: Streamer, op: Op)
    requires c.Valid() && Clocked(c) && Scheduled(c, s)
    requires s.encoder.timestamp == |s.encoded| * c.format.framesPerPacket
    ensures Scheduled(c, Step(c, s, op))
  {
    if !op.FlushReset? {
      StepKind(c, s, op);
      ScheduledAfterAdvance(c, s, Step(c, s, op));
    }
  }

  lemma {:induction false} ScheduledAfterRun(c: Config, s: Streamer, ops: seq<Op>)
    requires c.Valid() && Clocked(c) && Scheduled(c, s) && Accounts(c, s) && Faultless(s)
    ensures Scheduled(c, Run(c, s, ops))
    decreases |ops|
  {
    if ops != [] {
      ScheduledAfterStep(c, s, ops[0]);
      StepAccounts(c, s, ops[0]);
      StepFaultless(c, s, ops[0]);
      ScheduledAfterRun(c, Step(c, s, ops[0]), ops[1..]);
    }
  }

  /** In every run, through every wrap of the RTP timestamp, syncs come when they should. */
  lemma SyncCadence(c: Config, senders: seq<Sender>, ops: seq<Op>)
    requires c.Valid() && Clocked(c) && senders != []
    ensures OnTime(c, Run(c, Start(c, senders), ops).sent)
  {
    ScheduledAfterRun(c, Start(c, senders), ops);
  }

  /** So no packet is a full second of samples away from the last sync. */
  lemma {:induction false} SyncWithinASecond(c: Config, sent: seq<Message>, j: nat)
    requires c.format.sampleRate > 0 && OnTime(c, sent) && j < |sent|
    ensures
      var last := LastSync(sent[..j + 1]);
      last >= 0 && 0 <= sent[j].timestamp - sent[last].timestamp < c.format.sampleRate
  {
    var upTo := sent[..j + 1];
    assert Timely(c, sent, j);
    assert upTo[..j] == sent[..j];
    var last := LastSync(upTo);
    assert Timely(c, sent, last);
    ModArith.MulMonotone(last, j, c.format.framesPerPacket);
  }

  // ----- The first packet after a start or a flush -----

  /** Marker set, sync due, and a first sync packet if there is a control port to send it to. */
  ghost predicate Opening(m: Message, port: u16) {
    && m.marker && m.needSync
    && (port == 0 ==> m.syncData.None?)
    && (port != 0 ==> m.syncData.Some? && |m.syncData.value| >= 20 && m.syncData.value[0] == 0x90)
  }

  /** No marker, and a sync packet only where one is due, not marked as a first one. */
  ghost predicate Following(m: Message, port: u16) {
    && !m.marker
    && (m.syncData.Some? <==> m.needSync && port != 0)
    && (m.syncData.Some? ==> |m.syncData.value| >= 20 && m.syncData.value[0] == 0x80)
  }

  /** Where a run stands that was started or flushed when n messages had been sent. */
  ghost predicate Opened(n: nat, port: u16, s: Streamer) {
    && s.senders != [] && n <= |s.sent|
    && (s.status != Error ==>
          && s.senders[0].controlPort == port
          && (s.firstPacketSent <==> |s.sent| > n)
          && (s.senders[0].firstSyncSent <==> |s.sent| > n && port != 0))
    && (|s.sent| > n ==> Opening(s.sent[n], port))
    && (forall j :: n < j < |s.sent| ==> Following(s.sent[j], port))
  }

  lemma SyncShape(c: Config, needSync: bool, sender: Sender, rtp: u32, renderNs: u64)
    ensures
      var r := SyncIf(needSync, c, sender, rtp, renderNs);
      if !needSync || sender.controlPort == 0 then r == Synced(sender, None)
      else r.sender.firstSyncSent && r.data.Some? && |r.data.value| >= 20
           && r.data.value[0] == if sender.firstSyncSent then 0x80 else 0x90
  {}

  lemma SendSyncs(c: Config, s: Streamer, t: Streamer)
    requires Sends(c, s, t)
    ensures
      var m, before, after := t.sent[|s.sent|], s.senders[0], t.senders[0];
      && after.controlPort == before.controlPort
      && m.marker == !s.firstPacketSent && (m.marker ==> m.needSync) && t.firstPacketSent
      && (if !m.needSync || before.controlPort == 0
          then m.syncData.None? && after.firstSyncSent == before.firstSyncSent
          else m.syncData.Some? && after.firstSyncSent && |m.syncData.value| >= 20
               && m.syncData.value[0] == if before.firstSyncSent then 0x80 else 0x90)
  {
    var m := t.sent[|s.sent|];
    var rtp: u32 := m.timestamp % TWO_32;
    var sync := SyncIf(m.needSync, c, s.senders[0], rtp, m.renderNs);
    SyncShape(c, m.needSync, s.senders[0], rtp, m.renderNs);
    SyncKeepsLog(c, m.needSync, s.senders[0], rtp, m.renderNs);
    PrepareAllEach(c, s.senders[0 := sync.sender], rtp, c.codec(t.encoded), m.marker, 0);
  }

  lemma OpenedAfterSend(c: Config, n: nat, port: u16, s: Streamer, t: Streamer)
    requires Opened(n, port, s) && Sends(c, s, t)
    ensures Opened(n, port, t)
  {
    SendSyncs(c, s, t);
    assert t.sent == s.sent + [t.sent[|s.sent|]];
  }

  lemma OpenedAfterAdvance(c: Config, n: nat, port: u16, s: Streamer, t: Streamer)
    requires Opened(n, port, s) && Advances(c, s, t)
    ensures Opened(n, port, t)
  {
    if Sends(c, s, t) { OpenedAfterSend(c, n, port, s, t); }
  }

  ghost predicate NoFlush(ops: seq<Op>) {
    forall i :: 0 <= i < |ops| ==> !ops[i].FlushReset?
  }

  lemma {:induction false} OpenedAfterRun(c: Config, n: nat, port: u16, s: Streamer, ops: seq<Op>)
    requires c.Valid() && Opened(n, port, s) && NoFlush(ops)
    ensures Opened(n, port, Run(c, s, ops))
    decreases |ops|
  {
    if ops != [] {
      StepKind(c, s, ops[0]);
      OpenedAfterAdvance(c, n, port, s, Step(c, s, ops[0]));
      OpenedAfterRun(c, n, port, Step(c, s, ops[0]), ops[1..]);
    }
  }

  /** The message sent next, when there is one, opens; every later one follows. */
  ghost predicate OpensThenFollows(sent: seq<Message>, n: nat, port: u16) {
    && (n < |sent| ==> Opening(sent[n], port))
    && (forall j :: n < j < |sent| ==> Following(sent[j], port))
  }

  /** From any state: the first message after a flush, and no other until the next flush, opens the stream anew. */
  lemma FirstAfterFlush(c: Config, s: Streamer, ops: seq<Op>)
    requires c.Valid() && s.senders != [] && NoFlush(ops)
    ensures OpensThenFollows(Run(c, Step(c, s, FlushReset), ops).sent, |s.sent|, s.senders[0].controlPort)
  {
    OpenedAfterRun(c, |s.sent|, s.senders[0].controlPort, Step(c, s, FlushReset), ops);
  }

  lemma FirstAfterStart(c: Config, senders: seq<Sender>, ops: seq<Op>)
    requires c.Valid() && senders != [] && !senders[0].firstSyncSent && NoFlush(ops)
    ensures OpensThenFollows(Run(c, Start(c, senders), ops).sent, 0, senders[0].controlPort)
  {
    OpenedAfterRun(c, 0, senders[0].controlPort, Start(c, senders), ops);
  }

  // ----- What the sync packets say -----

  /** How many sync packets have been handed over. */
  function SyncCount(sent: seq<Message>): nat {
    if sent == [] then 0
    else SyncCount(sent[..|sent| - 1]) + if sent[|sent| - 1].syncData.Some? then 1 else 0
  }

  /** A sync packet of these settings for message m, with this number. */
  function SyncOf(c: Config, m: Message, sequence: u16, first: bool): Bytes {
    var rtp: u32 := m.timestamp % TWO_32;
    if c.usePtpSync then
      PtpSyncPacket(first, sequence, rtp, m.renderNs, NextTimestamp(rtp, c.format.sampleRate), c.ptpClockId)
    else SyncPacket(first, sequence, rtp, UnixToNtp(m.renderNs))
  }

  /** The sync data of m, if any, is its sync packet with this number. */
  predicate SyncedAs(c: Config, m: Message, sequence: u16) {
    match m.syncData
    case None => true
    case Some(data) => data == SyncOf(c, m, sequence, true) || data == SyncOf(c, m, sequence, false)
  }

  /** The number of the next sync packet. */
  function NextNumber(start: u16, sent: seq<Message>): u16 {
    (start + SyncCount(sent)) % TWO_16
  }

  /** Every message passes with `start` plus the number of sync packets before it. */
  ghost predicate AllAnnounced(c: Config, start: u16, sent: seq<Message>) {
    sent == []
    || var front := sent[..|sent| - 1];
       AllAnnounced(c, start, front) && SyncedAs(c, sent[|sent| - 1], NextNumber(start, front))
  }

  /** The sync packet of message j, if it has one, has its number and its own RTP time. */
  ghost predicate NumberedAt(c: Config, start: u16, sent: seq<Message>, j: nat)
    requires j < |sent|
  {
    SyncedAs(c, sent[j], NextNumber(start, sent[..j]))
  }

  lemma {:induction false} EachAnnounced(c: Config, start: u16, sent: seq<Message>, j: nat)
    requires AllAnnounced(c, start, sent) && j < |sent|
    ensures NumberedAt(c, start, sent, j)
  {
    var front := sent[..|sent| - 1];
    if j < |front| {
      EachAnnounced(c, start, front, j);
      assert front[..j] == sent[..j] && front[j] == sent[j];
    } else {
      assert front == sent[..j];
    }
  }

  /** The sync packets so far are numbered on from `start`, and so will the next one be. */
  ghost predicate Numbering(c: Config, start: u16, s: Streamer) {
    && s.senders != []
    && AllAnnounced(c, start, s.sent)
    && (s.status != Error ==> s.senders[0].syncSequence == NextNumber(start, s.sent))
  }

  lemma SyncIs(c: Config, needSync: bool, sender: Sender, m: Message)
    ensures
      var r := SyncIf(needSync, c, sender, m.timestamp % TWO_32, m.renderNs);
      if r.data.Some?
      then r.data.value == SyncOf(c, m, sender.syncSequence, !sender.firstSyncSent)
           && r.sender.syncSequence == (sender.syncSequence + 1) % TWO_16
      else r.sender.syncSequence == sender.syncSequence
  {}

  lemma SendNumbers(c: Config, s: Streamer, t: Streamer)
    requires Sends(c, s, t)
    ensures
      var m, before := t.sent[|s.sent|], s.senders[0];
      && SyncedAs(c, m, before.syncSequence)
      && t.senders[0].syncSequence
         == if m.syncData.Some? then (before.syncSequence + 1) % TWO_16 else before.syncSequence
  {
    var m := t.sent[|s.sent|];
    var rtp: u32 := m.timestamp % TWO_32;
    var sync := SyncIf(m.needSync, c, s.senders[0], rtp, m.renderNs);
    SyncIs(c, m.needSync, s.senders[0], m);
    PrepareAllEach(c, s.senders[0 := sync.sender], rtp, c.codec(t.encoded), m.marker, 0);
  }

  lemma SyncCountAppend(sent: seq<Message>, m: Message)
    ensures SyncCount(sent + [m]) == SyncCount(sent) + if m.syncData.Some? then 1 else 0
  {
    assert (sent + [m])[..|sent|] == sent;
  }

  lemma AnnouncedAppend(c: Config, start: u16, sent: seq<Message>, m: Message)
    requires AllAnnounced(c, start, sent) && SyncedAs(c, m, NextNumber(start, sent))
    ensures AllAnnounced(c, start, sent + [m])
  {
    assert (sent + [m])[..|sent|] == sent;
  }

  lemma NumbersGoOn(start: u16, sent: seq<Message>, m: Message)
    ensures NextNumber(start, sent + [m])
            == if m.syncData.Some? then (NextNumber(start, sent) + 1) % TWO_16 else NextNumber(start, sent)
  {
    SyncCountAppend(sent, m);
  }

  lemma NumberingAfterSend(c: Config, start: u16, s: Streamer, t: Streamer)
    requires Numbering(c, start, s) && Sends(c, s, t)
    ensures Numbering(c, start, t)
  {
    var m := t.sent[|s.sent|];
    SendNumbers(c, s, t);
    NumbersGoOn(start, s.sent, m);
    AnnouncedAppend(c, start, s.sent, m);
    assert t.sent == s.sent + [m];
  }

  lemma NumberingAfterAdvance(c: Config, start: u16, s: Streamer, t: Streamer)
    requires Numbering(c, start, s) && Advances(c, s, t)
    ensures Numbering(c, start, t)
  {
    if Sends(c, s, t) { NumberingAfterSend(c, start, s, t); }
  }

  lemma {:induction false} NumberingAfterRun(c: Config, start: u16, s: Streamer, ops: seq<Op>)
    requires c.Valid() && Numbering(c, start, s)
    ensures Numbering(c, start, Run(c, s, ops))
    decreases |ops|
  {
    if ops != [] {
      if !ops[0].FlushReset? {
        StepKind(c, s, ops[0]);
        NumberingAfterAdvance(c, start, s, Step(c, s, ops[0]));
      }
      NumberingAfterRun(c, start, Step(c, s, ops[0]), ops[1..]);
    }
  }

  // ----- When a message is to be heard -----

  /** The latest offset that a turn at work has been given. */
  function LatestOffset(c: Config, s: Streamer, ops: seq<Op>): Option<ClockOffset>
    requires c.Valid()
  {
    if ops == [] then s.clockOffset
    else
      var front, last := ops[..|ops| - 1], ops[|ops| - 1];
      if Works(Run(c, s, front), last) && last.latest.Some? then last.latest else LatestOffset(c, s, front)
  }

  lemma ContinueOffset(c: Config, s: Streamer, wallNs: u64, delivered: bool)
    requires c.Valid()
    ensures
      var t := Continue(c, s, wallNs, delivered);
      && t.clockOffset == s.clockOffset
      && (t.sent == s.sent
          || exists m :: t.sent == s.sent + [m] && m.renderNs == RenderTime(c, s.clockOffset, wallNs))
  {
    var played := Decided(s, Decide(c, s));
    if Decide(c, s).Ready? && s.fifo != [] && s.senders != [] {
      var e := Encode(s.encoder, c.format, s.fifo[0]);
      var coded := played.(fifo := s.fifo[1..], encoder := e.encoder, encoded := s.encoded + [e.packet.pcm]);
      TransmitRenders(c, coded, e.packet, wallNs, delivered);
      assert Play(c, played, wallNs, delivered) == Transmit(c, coded, e.packet, wallNs, delivered);
    }
  }

  lemma TransmitRenders(c: Config, s: Streamer, packet: EncodedPacket, wallNs: u64, delivered: bool)
    requires s.senders != []
    ensures
      var t := Transmit(c, s, packet, wallNs, delivered);
      && t.clockOffset == s.clockOffset
      && (t.sent == s.sent
          || exists m :: t.sent == s.sent + [m] && m.renderNs == RenderTime(c, s.clockOffset, wallNs))
  {
    var o := Compose(c, s, packet, wallNs);
    if o.wires.Some? {
      var m := Message(packet.timestamp, o.renderNs, o.marker, o.needSync, o.syncData, o.wires.value);
      assert Transmit(c, s, packet, wallNs, delivered).sent == s.sent + [m];
    }
  }

  lemma RefillOffset(c: Config, s: Streamer, rx: seq<Recv>)
    ensures Refill(c, s, rx).clockOffset == s.clockOffset && Refill(c, s, rx).sent == s.sent
  {}

  /** What a step does to offset and messages: a turn at work takes the latest offset, and renders by it. */
  ghost predicate Renders(c: Config, s: Streamer, op: Op, t: Streamer) {
    && t.clockOffset == (if Works(s, op) && op.latest.Some? then op.latest else s.clockOffset)
    && (t.sent == s.sent
        || (op.Tick?
            && exists m :: t.sent == s.sent + [m] && m.renderNs == RenderTime(c, t.clockOffset, op.wallNs)))
  }

  lemma StepRenders(c: Config, s: Streamer, op: Op)
    requires c.Valid()
    ensures Renders(c, s, op, Step(c, s, op))
  {
    if Works(s, op) {
      var timed := Timed(s, op.latest);
      RefillOffset(c, timed, op.rx);
      var refilled := Refill(c, timed, op.rx);
      if !refilled.finished { ContinueOffset(c, refilled, op.wallNs, op.delivered); }
    }
  }

  /** Turn i's own time, plus the latest offset if there is one, plus the delay. */
  function TurnTime(c: Config, start: Streamer, ops: seq<Op>, i: nat): u64
    requires c.Valid() && i < |ops| && ops[i].Tick?
  {
    var offsetNs: int :=
      match LatestOffset(c, start, ops[..i + 1]) case None => 0 case Some(offset) => offset.offsetNs;
    (ops[i].wallNs + offsetNs + c.renderDelayNs) % 0x1_0000_0000_0000_0000
  }

  /** Wrapping twice is wrapping once. */
  lemma RenderTimeIs(c: Config, offset: Option<ClockOffset>, wallNs: u64)
    ensures
      var offsetNs: int := match offset case None => 0 case Some(o) => o.offsetNs;
      RenderTime(c, offset, wallNs) == (wallNs + offsetNs + c.renderDelayNs) % TWO_64
  {}

  /** Turn i, and no other, sent message j. */
  ghost predicate SentBy(c: Config, start: Streamer, ops: seq<Op>, j: nat, i: nat)
    requires c.Valid()
  {
    && i < |ops| && ops[i].Tick?
    && |Run(c, start, ops[..i]).sent| == j < |Run(c, start, ops[..i + 1]).sent|
  }

  ghost predicate RenderedBy(c: Config, start: Streamer, ops: seq<Op>, m: Message, j: nat, i: nat)
    requires c.Valid()
  {
    SentBy(c, start, ops, j, i) && m.renderNs == TurnTime(c, start, ops, i)
  }

  lemma {:induction false} OffsetIsLatest(c: Config, s: Streamer, ops: seq<Op>)
    requires c.Valid()
    ensures Run(c, s, ops).clockOffset == LatestOffset(c, s, ops)
  {
    if ops != [] {
      var front := ops[..|ops| - 1];
      OffsetIsLatest(c, s, front);
      RunSnoc(c, s, ops);
      StepRenders(c, Run(c, s, front), ops[|ops| - 1]);
    }
  }

  lemma RenderedEarlier(c: Config, start: Streamer, ops: seq<Op>, m: Message, j: nat, i: nat)
    requires c.Valid() && ops != [] && RenderedBy(c, start, ops[..|ops| - 1], m, j, i)
    ensures RenderedBy(c, start, ops, m, j, i)
  {
    var front := ops[..|ops| - 1];
    assert front[..i] == ops[..i] && front[..i + 1] == ops[..i + 1];
  }

  lemma LastRenders(c: Config, start: Streamer, ops: seq<Op>, j: nat, latest: Option<ClockOffset>)
    requires c.Valid() && ops != [] && latest == LatestOffset(c, start, ops)
    requires |Run(c, start, ops[..|ops| - 1]).sent| == j < |Run(c, start, ops).sent|
    ensures ops[|ops| - 1].Tick?
    ensures Run(c, start, ops).sent[j].renderNs == RenderTime(c, latest, ops[|ops| - 1].wallNs)
  {
    RunSnoc(c, start, ops);
    StepRenders(c, Run(c, start, ops[..|ops| - 1]), ops[|ops| - 1]);
    OffsetIsLatest(c, start, ops);
  }

  lemma TurnTimeIs(c: Config, start: Streamer, ops: seq<Op>, i: nat, latest: Option<ClockOffset>)
    requires c.Valid() && i < |ops| && ops[i].Tick? && latest == LatestOffset(c, start, ops[..i + 1])
    ensures TurnTime(c, start, ops, i) == RenderTime(c, latest, ops[i].wallNs)
  {
    RenderTimeIs(c, latest, ops[i].wallNs);
  }

  lemma RenderedLast(c: Config, start: Streamer, ops: seq<Op>, j: nat)
    requires c.Valid() && ops != []
    requires |Run(c, start, ops[..|ops| - 1]).sent| == j < |Run(c, start, ops).sent|
    ensures RenderedBy(c, start, ops, Run(c, start, ops).sent[j], j, |ops| - 1)
  {
    var i := |ops| - 1;
    assert ops[..i + 1] == ops;
    LastRenders(c, start, ops, j, LatestOffset(c, start, ops));
    TurnTimeIs(c, start, ops, i, LatestOffset(c, start, ops));
  }

  lemma SentGrows(c: Config, start: Streamer, ops: seq<Op>)
    requires c.Valid() && ops != []
    ensures
      var before, after := Run(c, start, ops[..|ops| - 1]).sent, Run(c, start, ops).sent;
      before <= after && |after| <= |before| + 1
  {
    RunSnoc(c, start, ops);
    StepRenders(c, Run(c, start, ops[..|ops| - 1]), ops[|ops| - 1]);
  }

  /** Every message of a run was sent by one of its turns, to be heard at that turn's time. */
  lemma {:induction false} EachRendered(c: Config, start: Streamer, ops: seq<Op>, j: nat) returns (i: nat)
    requires c.Valid() && |start.sent| <= j < |Run(c, start, ops).sent|
    ensures RenderedBy(c, start, ops, Run(c, start, ops).sent[j], j, i)
  {
    var front := ops[..|ops| - 1];
    SentGrows(c, start, ops);
    if j < |Run(c, start, front).sent| {
      i := EachRendered(c, start, front, j);
      RenderedEarlier(c, start, ops, Run(c, start, front).sent[j], j, i);
    } else {
      i := |front|;
      RenderedLast(c, start, ops, j);
    }
  }

  /** Message j is to be heard at the time of the turn that sent it. */
  ghost predicate RenderedAt(c: Config, start: Streamer, ops: seq<Op>, j: nat)
    requires c.Valid() && j < |Run(c, start, ops).sent|
  {
    exists i :: RenderedBy(c, start, ops, Run(c, start, ops).sent[j], j, i)
  }

  lemma NumberingFromScratch(c: Config, start: Streamer)
    requires start.senders != [] && start.sent == []
    ensures Numbering(c, start.senders[0].syncSequence, start)
  {}

  lemma NumberedFrom(c: Config, start: Streamer, ops: seq<Op>, j: nat)
    requires c.Valid() && start.senders != [] && start.sent == [] && j < |Run(c, start, ops).sent|
    ensures NumberedAt(c, start.senders[0].syncSequence, Run(c, start, ops).sent, j)
  {
    NumberingFromScratch(c, start);
    NumberingAfterRun(c, start.senders[0].syncSequence, start, ops);
    EachAnnounced(c, start.senders[0].syncSequence, Run(c, start, ops).sent, j);
  }

  lemma RenderedFrom(c: Config, start: Streamer, ops: seq<Op>, j: nat)
    requires c.Valid() && |start.sent| <= j < |Run(c, start, ops).sent|
    ensures RenderedAt(c, start, ops, j)
  {
    var i := EachRendered(c, start, ops, j);
  }

  /**
   * In every run, flushes included, sync packets carry consecutive numbers, and each the RTP time of its own
   * message and the moment at which that message, by the clock of the turn that sent it and the latest
   * offset, is to be heard.
   */
  lemma SyncsAsStamped(c: Config, senders: seq<Sender>, ops: seq<Op>, j: nat)
    requires c.Valid() && senders != [] && j < |Run(c, Start(c, senders), ops).sent|
    ensures NumberedAt(c, senders[0].syncSequence, Run(c, Start(c, senders), ops).sent, j)
    ensures RenderedAt(c, Start(c, senders), ops, j)
  {
    NumberedFrom(c, Start(c, senders), ops, j);
    RenderedFrom(c, Start(c, senders), ops, j);
  }

  /** At the library's sample rates a PTP sync announces the next packet exactly if packets have 352 frames. */
  lemma AnnouncesNextPacket(format: Format, n: nat)
    requires format.sampleRate == 44_100 || format.sampleRate == 48_000
    requires n * format.framesPerPacket >= 0 && format.framesPerPacket < TWO_32
    ensures NextTimestamp(n * format.framesPerPacket % TWO_32, format.sampleRate)
            == (n + 1) * format.framesPerPacket % TWO_32
            <==> format.framesPerPacket == AIRPLAY_ALAC_FRAMES_PER_PACKET
  {
    var step := format.framesPerPacket;
    assert (n + 1) * step == n * step + step;
    assert format.sampleRate / SAMPLE_RATE_44100 == 1;
    ShiftedEqually(n * step, AIRPLAY_ALAC_FRAMES_PER_PACKET, step);
  }

  lemma ShiftedEqually(base: nat, x: nat, y: nat)
    requires x < TWO_32 && y < TWO_32
    ensures (base % TWO_32 + x) % TWO_32 == (base + y) % TWO_32 <==> x == y
  {}
}
