/** What every run of the streaming loop keeps. */
module StreamerRuns {
  import opened Wrappers
  import opened ByteStrings
  import opened AudioBuffers
  import opened LiveDecoders
  import opened Encoders
  import opened RtpPackets
  import opened RtpSenders
  import opened Sequences
  import opened Streamers

  // ----- Taking runs apart -----

  lemma {:induction false} RunConcat(c: Config, s: Streamer, ops: seq<Op>, more: seq<Op>)
    requires c.Valid()
    ensures Run(c, s, ops + more) == Run(c, Run(c, s, ops), more)
    decreases |ops|
  {
    if ops == [] {
      assert ops + more == more;
    } else {
      assert (ops + more)[1..] == ops[1..] + more;
      RunConcat(c, Step(c, s, ops[0]), ops[1..], more);
    }
  }

  lemma RunOne(c: Config, s: Streamer, op: Op)
    requires c.Valid()
    ensures Run(c, s, [op]) == Step(c, s, op)
  {
    assert [op][1..] == [];
  }

  lemma RunSnoc(c: Config, s: Streamer, ops: seq<Op>)
    requires c.Valid() && ops != []
    ensures Run(c, s, ops) == Step(c, Run(c, s, ops[..|ops| - 1]), ops[|ops| - 1])
  {
    var front, last := ops[..|ops| - 1], ops[|ops| - 1];
    assert ops == front + [last];
    RunConcat(c, s, front, [last]);
    RunOne(c, Run(c, s, front), last);
  }

  // ----- Conservation -----

  ghost predicate FullSize(frames: seq<Pcm>, target: nat) {
    forall i :: 0 <= i < |frames| ==> |frames[i]| == target
  }

  /** What was coded, then what is queued, then the residual, is what was received. */
  ghost predicate Balanced(encoded: seq<Pcm>, fifo: seq<Pcm>, d: Decoder) {
    Flatten(encoded) + (Flatten(fifo) + d.residual) == d.Received()
  }

  /** The faults that cost samples: a packet that does not fit, and a frame that cannot be converted. */
  predicate LosesSamples(fault: Option<Fault>) {
    fault == Some(BufferOverflow) || fault == Some(Resampling)
  }

  ghost predicate Accounts(c: Config, s: Streamer) {
    && s.encoder.buffer == []
    && s.encoder.timestamp == |s.encoded| * c.format.framesPerPacket
    && FullSize(s.encoded, c.Target())
    && FullSize(s.fifo, c.Target())
    && (!LosesSamples(s.fault) ==> Balanced(s.encoded, s.fifo, s.decoder))
  }

  lemma Regroup(before: Pcm, queue: Pcm, frame: Pcm, left: Pcm, residual: Pcm, added: Pcm)
    requires frame + left == residual + added
    ensures before + ((queue + frame) + left) == (before + (queue + residual)) + added
  {
    Associative(queue, frame, left);
    Associative(queue, residual, added);
    Associative(before, queue + residual, added);
  }

  lemma PushBalances(encoded: seq<Pcm>, fifo: seq<Pcm>, d: Decoder, after: Decoder, frame: Pcm)
    requires Balanced(encoded, fifo, d) && Conserves(d, after, frame)
    ensures Balanced(encoded, fifo + [frame], after)
  {
    var added := after.Received()[|d.Received()|..];
    FlattenConcat(fifo, [frame]);
    FlattenOne(frame);
    Regroup(Flatten(encoded), Flatten(fifo), frame, after.residual, d.residual, added);
    assert d.Received() + added == after.Received();
  }

  lemma StarveBalances(encoded: seq<Pcm>, fifo: seq<Pcm>, d: Decoder, after: Decoder)
    requires Balanced(encoded, fifo, d) && Conserves(d, after, [])
    ensures Balanced(encoded, fifo, after)
  {
    var added := after.Received()[|d.Received()|..];
    Regroup(Flatten(encoded), Flatten(fifo), [], after.residual, d.residual, added);
    assert Flatten(fifo) + [] == Flatten(fifo);
    assert d.Received() + added == after.Received();
  }

  lemma {:induction false} DecodeSomeBalances(
    limit: nat, d: Decoder, fifo: seq<Pcm>, rx: seq<Recv>, capacity: nat, target: nat, encoded: seq<Pcm>)
    requires FullSize(fifo, target) && (d.failed || Balanced(encoded, fifo, d))
    ensures
      var b := DecodeSome(limit, d, fifo, rx, capacity, target);
      FullSize(b.fifo, target) && (b.overflow || b.decoder.failed || Balanced(encoded, b.fifo, b.decoder))
  {
    if limit > 0 {
      var r := DecodePacket(d, rx, target);
      PacketConserves(d, rx, target);
      match r.frame
      case None =>
        if !r.decoder.failed { StarveBalances(encoded, fifo, d, r.decoder); }
      case Some(frame) =>
        if |fifo| < capacity {
          if !r.decoder.failed { PushBalances(encoded, fifo, d, r.decoder, frame); }
          DecodeSomeBalances(limit - 1, r.decoder, fifo + [frame], r.rx, capacity, target, encoded);
        }
    }
  }

  lemma RefillAccounts(c: Config, s: Streamer, rx: seq<Recv>)
    requires Accounts(c, s) && s.fault.None?
    ensures Accounts(c, Refill(c, s, rx))
  {
    DecodeSomeBalances(DECODE_BATCH_LIMIT, s.decoder, s.fifo, rx, c.capacity, c.Target(), s.encoded);
  }

  lemma PlayBalances(encoded: seq<Pcm>, fifo: seq<Pcm>, d: Decoder)
    requires fifo != [] && Balanced(encoded, fifo, d)
    ensures Balanced(encoded + [fifo[0]], fifo[1..], d)
  {
    var frame, rest := fifo[0], Flatten(fifo[1..]);
    assert [frame] + fifo[1..] == fifo;
    FlattenConcat([frame], fifo[1..]);
    FlattenConcat(encoded, [frame]);
    FlattenOne(frame);
    Associative(frame, rest, d.residual);
    Associative(Flatten(encoded), frame, rest + d.residual);
  }

  lemma PlayAccounts(c: Config, s: Streamer, wallNs: u64, delivered: bool)
    requires c.Valid() && Accounts(c, s) && s.fault.None?
    ensures Accounts(c, Play(c, s, wallNs, delivered))
  {
    if s.fifo != [] {
      var e := Encode(s.encoder, c.format, s.fifo[0]);
      FullPacket(s.encoder, c.format, s.fifo[0]);
      PlayBalances(s.encoded, s.fifo, s.decoder);
      var coded := s.(fifo := s.fifo[1..], encoder := e.encoder, encoded := s.encoded + [e.packet.pcm]);
      assert Accounts(c, coded);
      if s.senders != [] { TransmitKeeps(c, coded, e.packet, wallNs, delivered); }
    }
  }

  /** A fault ends the run, and a failed conversion is one. */
  ghost predicate Faultless(s: Streamer) {
    && (s.fault.Some? ==> s.finished && s.status == Error)
    && (s.decoder.failed ==> s.fault.Some?)
  }

  lemma DecideAccounts(c: Config, s: Streamer, wallNs: u64, delivered: bool)
    requires c.Valid() && Accounts(c, s) && s.fault.None?
    ensures Accounts(c, Continue(c, s, wallNs, delivered))
  {
    var action := Decide(c, s);
    if action.Ready? { PlayAccounts(c, Decided(s, action), wallNs, delivered); }
  }

  lemma TickAccounts(c: Config, s: Streamer, op: Op)
    requires c.Valid() && op.Tick? && Accounts(c, s) && s.fault.None?
    ensures Accounts(c, TickStep(c, s, op))
  {
    var timed := Timed(s, op.latest);
    RefillAccounts(c, timed, op.rx);
    var refilled := Refill(c, timed, op.rx);
    if !refilled.finished { DecideAccounts(c, refilled, op.wallNs, op.delivered); }
  }

  lemma StepAccounts(c: Config, s: Streamer, op: Op)
    requires c.Valid() && Accounts(c, s) && Faultless(s)
    ensures Accounts(c, Step(c, s, op))
  {
    if Works(s, op) { TickAccounts(c, s, op); }
  }

  lemma PlayFaultless(c: Config, s: Streamer, wallNs: u64, delivered: bool)
    requires c.Valid() && s.fault.None? && Faultless(s)
    ensures Faultless(Play(c, s, wallNs, delivered))
  {
    if s.fifo != [] && s.senders != [] {
      var e := Encode(s.encoder, c.format, s.fifo[0]);
      var coded := s.(fifo := s.fifo[1..], encoder := e.encoder, encoded := s.encoded + [e.packet.pcm]);
      TransmitKeeps(c, coded, e.packet, wallNs, delivered);
    }
  }

  lemma ContinueFaultless(c: Config, s: Streamer, wallNs: u64, delivered: bool)
    requires c.Valid() && s.fault.None? && Faultless(s)
    ensures Faultless(Continue(c, s, wallNs, delivered))
  {
    if Decide(c, s).Ready? { PlayFaultless(c, Decided(s, Decide(c, s)), wallNs, delivered); }
  }

  lemma RefillFaultless(c: Config, s: Streamer, rx: seq<Recv>)
    requires s.fault.None? && Faultless(s)
    ensures Faultless(Refill(c, s, rx))
    ensures Refill(c, s, rx).fault.Some? ==> Refill(c, s, rx).finished
  {}

  lemma TickFaultless(c: Config, s: Streamer, op: Op)
    requires c.Valid() && op.Tick? && s.fault.None? && Faultless(s)
    ensures Faultless(TickStep(c, s, op))
  {
    var timed := Timed(s, op.latest);
    RefillFaultless(c, timed, op.rx);
    var refilled := Refill(c, timed, op.rx);
    if !refilled.finished { ContinueFaultless(c, refilled, op.wallNs, op.delivered); }
  }

  lemma StepFaultless(c: Config, s: Streamer, op: Op)
    requires c.Valid() && Faultless(s)
    ensures Faultless(Step(c, s, op))
  {
    if Works(s, op) { TickFaultless(c, s, op); }
  }

  lemma {:induction false} RunAccounts(c: Config, s: Streamer, ops: seq<Op>)
    requires c.Valid() && Accounts(c, s) && Faultless(s)
    ensures Accounts(c, Run(c, s, ops)) && Faultless(Run(c, s, ops))
    decreases |ops|
  {
    if ops != [] {
      StepAccounts(c, s, ops[0]);
      StepFaultless(c, s, ops[0]);
      RunAccounts(c, Step(c, s, ops[0]), ops[1..]);
    }
  }

  /** In every run without a fault that costs samples, none is lost, repeated or reordered. */
  lemma Conservation(c: Config, senders: seq<Sender>, ops: seq<Op>)
    requires c.Valid()
    ensures
      var s := Run(c, Start(c, senders), ops);
      && FullSize(s.encoded, c.Target())
      && s.encoder == Encoder([], |s.encoded| * c.format.framesPerPacket)
      && (!LosesSamples(s.fault) ==>
            Flatten(s.encoded) + Flatten(s.fifo) + s.decoder.residual == s.decoder.Received())
  {
    RunAccounts(c, Start(c, senders), ops);
    var s := Run(c, Start(c, senders), ops);
    Associative(Flatten(s.encoded), Flatten(s.fifo), s.decoder.residual);
  }

  // ----- The four kinds of step, as far as sending is concerned -----

  /** The counters of what was sent stand still. */
  ghost predicate CountsKept(s: Streamer, t: Streamer) {
    t.packetsSent == s.packetsSent && t.currentTimestamp == s.currentTimestamp
  }

  /** Nothing that has to do with sending changes. */
  ghost predicate Rests(s: Streamer, t: Streamer) {
    && t.sent == s.sent && t.senders == s.senders && t.encoded == s.encoded && t.encoder == s.encoder
    && t.lastSyncRtp == s.lastSyncRtp && t.firstPacketSent == s.firstPacketSent && CountsKept(s, t)
    && (s.status == Error ==> t.status == Error)
  }

  /** One more frame is coded and handed over. */
  ghost predicate Sends(c: Config, s: Streamer, t: Streamer) {
    && s.senders != [] && s.status != Error
    && |t.senders| == |s.senders| && |t.sent| == |s.sent| + 1 && s.sent == t.sent[..|s.sent|]
    && |t.encoded| == |s.encoded| + 1 && s.encoded == t.encoded[..|s.encoded|]
    && t.packetsSent == s.packetsSent + 1 && t.currentTimestamp == t.encoder.timestamp
    && SendsMessage(c, s, t, t.sent[|s.sent|])
  }

  ghost predicate SendsMessage(c: Config, s: Streamer, t: Streamer, m: Message)
    requires s.senders != []
  {
    var rtp: u32 := m.timestamp % TWO_32;
    var sync := SyncIf(m.needSync, c, s.senders[0], rtp, m.renderNs);
    && m.timestamp == s.encoder.timestamp
    && m.marker == !s.firstPacketSent
    && m.needSync == NeedSync(m.marker, s.lastSyncRtp, rtp, c.format.sampleRate)
    && m.syncData == sync.data
    && PrepareAll(s.senders[0 := sync.sender], c.payloadType, rtp, c.codec(t.encoded), m.marker)
       == Prepared(t.senders, Some(m.wirePackets))
    && t.lastSyncRtp == (if m.needSync then rtp else s.lastSyncRtp)
    && t.firstPacketSent
  }

  /** At most one packet has been numbered and logged, for a message that was never handed over. */
  ghost predicate Grown(before: Sender, after: Sender) {
    && after.ssrc == before.ssrc && after.cipher == before.cipher
    && before.log <= after.log && |after.log| <= |before.log| + 1
  }

  ghost predicate AllGrown(before: seq<Sender>, after: seq<Sender>) {
    |after| == |before| && forall k :: 0 <= k < |before| ==> Grown(before[k], after[k])
  }

  ghost predicate Breaks(s: Streamer, t: Streamer) {
    && s.status != Error && t.status == Error && t.sent == s.sent && s.encoded <= t.encoded
    && AllGrown(s.senders, t.senders)
    && t.firstPacketSent == s.firstPacketSent && t.lastSyncRtp == s.lastSyncRtp && CountsKept(s, t)
  }

  ghost predicate Advances(c: Config, s: Streamer, t: Streamer) {
    Rests(s, t) || Sends(c, s, t) || Breaks(s, t)
  }

  lemma PrepareGrows(sender: Sender, payloadType: byte, rtp: u32, payload: Bytes, marker: bool)
    ensures Grown(sender, Prepare(sender, payloadType, rtp, payload, marker).0)
  {}

  /** Preparing, even if it fails halfway, adds at most one packet to each log. */
  lemma {:induction false} PrepareAllGrows(
    senders: seq<Sender>, payloadType: byte, rtp: u32, payload: Bytes, marker: bool)
    ensures AllGrown(senders, PrepareAll(senders, payloadType, rtp, payload, marker).senders)
    decreases |senders|
  {
    if senders != [] {
      var last := |senders| - 1;
      PrepareAllGrows(senders[..last], payloadType, rtp, payload, marker);
      PrepareGrows(senders[last], payloadType, rtp, payload, marker);
      var front := PrepareAll(senders[..last], payloadType, rtp, payload, marker);
      var after := PrepareAll(senders, payloadType, rtp, payload, marker).senders;
      forall k | 0 <= k < |senders|
        ensures Grown(senders[k], after[k])
      {
        if k < last { assert Grown(senders[..last][k], front.senders[k]); }
      }
    }
  }

  lemma ComposeGrows(c: Config, s: Streamer, packet: EncodedPacket, wallNs: u64)
    requires s.senders != []
    ensures AllGrown(s.senders, Compose(c, s, packet, wallNs).senders)
  {
    var rtp: u32 := packet.timestamp % TWO_32;
    var marker := !s.firstPacketSent;
    var needSync := NeedSync(marker, s.lastSyncRtp, rtp, c.format.sampleRate);
    var renderNs := RenderTime(c, s.clockOffset, wallNs);
    var sync := SyncIf(needSync, c, s.senders[0], rtp, renderNs);
    SyncKeepsLog(c, needSync, s.senders[0], rtp, renderNs);
    PrepareAllGrows(s.senders[0 := sync.sender], c.payloadType, rtp, c.codec(s.encoded), marker);
  }

  lemma TransmitKind(c: Config, s: Streamer, fifo: seq<Pcm>, e: Encoded, wallNs: u64, delivered: bool)
    requires s.senders != [] && s.status != Error && e.packet.timestamp == s.encoder.timestamp
    requires e.packet.timestamp + e.packet.frames == e.encoder.timestamp
    ensures
      var coded := s.(fifo := fifo, encoder := e.encoder, encoded := s.encoded + [e.packet.pcm]);
      Advances(c, s, Transmit(c, coded, e.packet, wallNs, delivered))
  {
    var coded := s.(fifo := fifo, encoder := e.encoder, encoded := s.encoded + [e.packet.pcm]);
    ComposeGrows(c, coded, e.packet, wallNs);
    TransmitAdvances(c, s, coded, e, wallNs, delivered);
  }

  lemma TransmitAdvances(c: Config, s: Streamer, coded: Streamer, e: Encoded, wallNs: u64, delivered: bool)
    requires s.senders != [] && s.status != Error && e.packet.timestamp == s.encoder.timestamp
    requires e.packet.timestamp + e.packet.frames == e.encoder.timestamp
    requires coded == s.(fifo := coded.fifo, encoder := e.encoder, encoded := s.encoded + [e.packet.pcm])
    requires AllGrown(coded.senders, Compose(c, coded, e.packet, wallNs).senders)
    ensures Advances(c, s, Transmit(c, coded, e.packet, wallNs, delivered))
  {}

  lemma PlayKind(c: Config, s: Streamer, wallNs: u64, delivered: bool)
    requires c.Valid() && s.senders != [] && s.status != Error
    ensures Advances(c, s, Play(c, s, wallNs, delivered))
  {
    if s.fifo != [] {
      TransmitKind(c, s, s.fifo[1..], Encode(s.encoder, c.format, s.fifo[0]), wallNs, delivered);
    }
  }

  /** What a tick does before it plays changes nothing that has to do with sending. */
  ghost predicate Untouched(s: Streamer, t: Streamer) {
    && t.sent == s.sent && t.senders == s.senders && t.encoded == s.encoded && t.encoder == s.encoder
    && t.lastSyncRtp == s.lastSyncRtp && t.firstPacketSent == s.firstPacketSent && CountsKept(s, t)
  }

  lemma AdvancesFromTouched(c: Config, s: Streamer, u: Streamer, t: Streamer)
    requires Untouched(s, u) && s.status != Error && Advances(c, u, t)
    ensures Advances(c, s, t)
  {}

  lemma RefillUntouched(c: Config, s: Streamer, rx: seq<Recv>)
    ensures
      var t := Refill(c, s, rx);
      && Untouched(s, t)
      && ((t.status == s.status && t.finished == s.finished) || (t.status == Error && t.finished))
  {}

  lemma ContinueKind(c: Config, s: Streamer, wallNs: u64, delivered: bool)
    requires c.Valid() && s.senders != [] && s.status != Error
    ensures Advances(c, s, Continue(c, s, wallNs, delivered))
  {
    var decided := Decided(s, Decide(c, s));
    if Decide(c, s).Ready? {
      PlayKind(c, decided, wallNs, delivered);
      AdvancesFromTouched(c, s, decided, Play(c, decided, wallNs, delivered));
    }
  }

  lemma TickKind(c: Config, s: Streamer, op: Op)
    requires c.Valid() && op.Tick? && s.senders != [] && !Over(s)
    ensures Advances(c, s, TickStep(c, s, op))
  {
    var timed := Timed(s, op.latest);
    var refilled := Refill(c, timed, op.rx);
    RefillUntouched(c, timed, op.rx);
    if !refilled.finished {
      ContinueKind(c, refilled, op.wallNs, op.delivered);
      AdvancesFromTouched(c, s, refilled, Continue(c, refilled, op.wallNs, op.delivered));
    }
  }

  /** Every step but a flush rests, sends exactly one message, or ends in an error. */
  lemma StepKind(c: Config, s: Streamer, op: Op)
    requires c.Valid() && s.senders != [] && !op.FlushReset?
    ensures Advances(c, s, Step(c, s, op))
  {
    if Works(s, op) { TickKind(c, s, op); }
  }

  // ----- What the senders do with one message -----

  /** Sender k made wire packet k, and only its log has grown. */
  ghost predicate Prepares(
    c: Config, before: Sender, after: Sender, rtp: u32, payload: Bytes, marker: bool, wire: Bytes)
  {
    && Some(wire) == WirePacket(before.cipher, before.ssrc, |before.log| % TWO_16, c.payloadType, rtp, payload, marker)
    && after == before.(log := before.log + [wire])
  }

  lemma {:induction false} PrepareAllEach(
    c: Config, senders: seq<Sender>, rtp: u32, payload: Bytes, marker: bool, k: nat)
    requires k < |senders|
    requires PrepareAll(senders, c.payloadType, rtp, payload, marker).wires.Some?
    ensures
      var p := PrepareAll(senders, c.payloadType, rtp, payload, marker);
      Prepares(c, senders[k], p.senders[k], rtp, payload, marker, p.wires.value[k])
    decreases |senders|
  {
    var last := |senders| - 1;
    var front := PrepareAll(senders[..last], c.payloadType, rtp, payload, marker);
    if k < last { PrepareAllEach(c, senders[..last], rtp, payload, marker, k); }
  }

  lemma SyncKeepsLog(c: Config, needSync: bool, sender: Sender, rtp: u32, renderNs: u64)
    ensures
      var after := SyncIf(needSync, c, sender, rtp, renderNs).sender;
      && after.ssrc == sender.ssrc && after.cipher == sender.cipher && after.log == sender.log
      && after.controlPort == sender.controlPort
  {}

  // ----- Packets as numbered -----

  /** Wire packet k of message n is the n-th of its sender since the start, and codes the first n + 1 frames. */
  ghost predicate WiredBy(c: Config, start: Sender, encoded: seq<Pcm>, m: Message, n: nat, k: nat) {
    && k < |m.wirePackets| && n < |encoded|
    && Some(m.wirePackets[k])
       == WirePacket(start.cipher, start.ssrc, (|start.log| + n) % TWO_16, c.payloadType,
                     m.timestamp % TWO_32, c.codec(encoded[..n + 1]), m.marker)
  }

  /** A sender's log is what it held at the start, then its packet of every message, and perhaps one more. */
  ghost predicate Logged(start: Sender, now: Sender, sent: seq<Message>, k: nat) {
    && now.ssrc == start.ssrc && now.cipher == start.cipher
    && |start.log| + |sent| <= |now.log| <= |start.log| + |sent| + 1
    && start.log == now.log[..|start.log|]
    && (forall n :: 0 <= n < |sent| ==>
          k < |sent[n].wirePackets| && now.log[|start.log| + n] == sent[n].wirePackets[k])
  }

  ghost predicate AllWired(c: Config, start: Sender, encoded: seq<Pcm>, sent: seq<Message>, k: nat) {
    forall n :: 0 <= n < |sent| ==> WiredBy(c, start, encoded, sent[n], n, k)
  }

  ghost predicate Wired(c: Config, start: Sender, k: nat, s: Streamer) {
    && k < |s.senders|
    && Logged(start, s.senders[k], s.sent, k)
    && (s.status != Error ==> |s.encoded| == |s.sent| && |s.senders[k].log| == |start.log| + |s.sent|)
    && AllWired(c, start, s.encoded, s.sent, k)
  }

  lemma SendGrowsLog(c: Config, s: Streamer, t: Streamer, k: nat)
    requires k < |s.senders| && Sends(c, s, t)
    ensures
      var m, before := t.sent[|s.sent|], s.senders[k];
      && k < |t.senders| && k < |m.wirePackets|
      && t.senders[k].ssrc == before.ssrc && t.senders[k].cipher == before.cipher
      && t.senders[k].log == before.log + [m.wirePackets[k]]
      && Some(m.wirePackets[k])
         == WirePacket(before.cipher, before.ssrc, |before.log| % TWO_16, c.payloadType,
                       m.timestamp % TWO_32, c.codec(t.encoded), m.marker)
  {
    var m := t.sent[|s.sent|];
    var rtp: u32 := m.timestamp % TWO_32;
    var sync := SyncIf(m.needSync, c, s.senders[0], rtp, m.renderNs);
    SyncKeepsLog(c, m.needSync, s.senders[0], rtp, m.renderNs);
    PrepareAllEach(c, s.senders[0 := sync.sender], rtp, c.codec(t.encoded), m.marker, k);
  }

  lemma LoggedAfterSend(start: Sender, before: Sender, after: Sender, sent: seq<Message>, m: Message, k: nat)
    requires Logged(start, before, sent, k) && |before.log| == |start.log| + |sent| && k < |m.wirePackets|
    requires after.ssrc == before.ssrc && after.cipher == before.cipher
    requires after.log == before.log + [m.wirePackets[k]]
    ensures Logged(start, after, sent + [m], k) && |after.log| == |start.log| + |sent + [m]|
  {}

  lemma WiredEarlier(c: Config, start: Sender, encoded: seq<Pcm>, more: seq<Pcm>, m: Message, n: nat, k: nat)
    requires WiredBy(c, start, encoded, m, n, k) && encoded <= more
    ensures WiredBy(c, start, more, m, n, k)
  {
    assert more[..n + 1] == encoded[..n + 1];
  }

  lemma AllWiredEarlier(c: Config, start: Sender, encoded: seq<Pcm>, more: seq<Pcm>, sent: seq<Message>, k: nat)
    requires AllWired(c, start, encoded, sent, k) && encoded <= more
    ensures AllWired(c, start, more, sent, k)
  {
    forall n | 0 <= n < |sent|
      ensures WiredBy(c, start, more, sent[n], n, k)
    {
      WiredEarlier(c, start, encoded, more, sent[n], n, k);
    }
  }

  lemma AllWiredAppend(c: Config, start: Sender, encoded: seq<Pcm>, sent: seq<Message>, m: Message, k: nat)
    requires AllWired(c, start, encoded, sent, k) && WiredBy(c, start, encoded, m, |sent|, k)
    ensures AllWired(c, start, encoded, sent + [m], k)
  {}

  lemma NewestWired(c: Config, start: Sender, k: nat, s: Streamer, t: Streamer)
    requires Wired(c, start, k, s) && Sends(c, s, t)
    ensures WiredBy(c, start, t.encoded, t.sent[|s.sent|], |s.sent|, k)
    ensures k < |t.senders| && Logged(start, t.senders[k], s.sent + [t.sent[|s.sent|]], k)
    ensures |t.senders[k].log| == |start.log| + |t.sent|
  {
    SendGrowsLog(c, s, t, k);
    assert t.encoded[..|s.sent| + 1] == t.encoded;
    LoggedAfterSend(start, s.senders[k], t.senders[k], s.sent, t.sent[|s.sent|], k);
  }

  lemma WiredAfterSend(c: Config, start: Sender, k: nat, s: Streamer, t: Streamer)
    requires Wired(c, start, k, s) && Sends(c, s, t)
    ensures Wired(c, start, k, t)
  {
    var m := t.sent[|s.sent|];
    NewestWired(c, start, k, s, t);
    AllWiredEarlier(c, start, s.encoded, t.encoded, s.sent, k);
    AllWiredAppend(c, start, t.encoded, s.sent, m, k);
    assert t.sent == s.sent + [m];
  }

  lemma WiredAfterBreak(c: Config, start: Sender, k: nat, s: Streamer, t: Streamer)
    requires Wired(c, start, k, s) && Breaks(s, t)
    ensures Wired(c, start, k, t)
  {
    assert Grown(s.senders[k], t.senders[k]);
    AllWiredEarlier(c, start, s.encoded, t.encoded, s.sent, k);
  }

  lemma WiredAfterStep(c: Config, start: Sender, k: nat, s: Streamer, op: Op)
    requires c.Valid() && Wired(c, start, k, s)
    ensures Wired(c, start, k, Step(c, s, op))
  {
    var t := Step(c, s, op);
    if !op.FlushReset? {
      StepKind(c, s, op);
      if Sends(c, s, t) {
        WiredAfterSend(c, start, k, s, t);
      } else if Breaks(s, t) {
        WiredAfterBreak(c, start, k, s, t);
      }
    }
  }

  lemma {:induction false} WiredAfterRun(c: Config, start: Sender, k: nat, s: Streamer, ops: seq<Op>)
    requires c.Valid() && Wired(c, start, k, s)
    ensures Wired(c, start, k, Run(c, s, ops))
    decreases |ops|
  {
    if ops != [] {
      WiredAfterStep(c, start, k, s, ops[0]);
      WiredAfterRun(c, start, k, Step(c, s, ops[0]), ops[1..]);
    }
  }

  /** In every run, message n carries for sender k the packet it should, and the sender's log holds it. */
  lemma PacketsAsNumbered(c: Config, senders: seq<Sender>, ops: seq<Op>, k: nat, n: nat)
    requires c.Valid() && k < |senders| && n < |Run(c, Start(c, senders), ops).sent|
    ensures
      var s := Run(c, Start(c, senders), ops);
      && WiredBy(c, senders[k], s.encoded, s.sent[n], n, k)
      && k < |s.senders| && Logged(senders[k], s.senders[k], s.sent, k)
      && (s.status != Error ==> |s.senders[k].log| == |senders[k].log| + |s.sent|)
  {
    WiredAfterRun(c, senders[k], k, Start(c, senders), ops);
  }

  lemma AnswerForOne(log: seq<Bytes>, j: nat)
    requires Recent(log, j)
    ensures Answers(log, j % TWO_16, 1) == [RetransmitResponse(log[j])]
  {
    FindIs(log, j, j % TWO_16);
    assert Answers(log, j % TWO_16, 0) == [];
  }

  /** Sender k, asked for message n, answers with the very packet that was handed over. */
  ghost predicate Resends(start: Sender, s: Streamer, k: nat, n: nat) {
    && k < |s.senders| && n < |s.sent| && k < |s.sent[n].wirePackets|
    && Answers(s.senders[k].log, (|start.log| + n) % TWO_16, 1) == [RetransmitResponse(s.sent[n].wirePackets[k])]
  }

  /** Message n is among the last 512 packets that sender k has numbered: of a run without an error, the last
      512 messages; after an error there may be one more packet, which was not handed over. */
  ghost predicate Held(start: Sender, s: Streamer, k: nat, n: nat) {
    k < |s.senders| && n < |s.sent| && |s.senders[k].log| - 512 <= |start.log| + n
  }

  lemma LoggedResends(start: Sender, s: Streamer, k: nat, n: nat)
    requires Held(start, s, k, n) && Logged(start, s.senders[k], s.sent, k)
    ensures Resends(start, s, k, n)
  {
    AnswerForOne(s.senders[k].log, |start.log| + n);
  }

  /** In every run, each message that a sender still holds can be had again from it. */
  lemma RetransmitsAsSent(c: Config, senders: seq<Sender>, ops: seq<Op>, k: nat, n: nat)
    requires c.Valid() && k < |senders| && Held(senders[k], Run(c, Start(c, senders), ops), k, n)
    ensures Resends(senders[k], Run(c, Start(c, senders), ops), k, n)
  {
    WiredAfterRun(c, senders[k], k, Start(c, senders), ops);
    LoggedResends(senders[k], Run(c, Start(c, senders), ops), k, n);
  }

  /** These are at least the last 511 messages, and the last 512 unless the run has ended in an error. */
  lemma HoldsTheLatest(c: Config, senders: seq<Sender>, ops: seq<Op>, k: nat, n: nat)
    requires c.Valid() && k < |senders| && n < |Run(c, Start(c, senders), ops).sent|
    requires
      var s := Run(c, Start(c, senders), ops);
      n >= |s.sent| - 512 + if s.status == Error then 1 else 0
    ensures Held(senders[k], Run(c, Start(c, senders), ops), k, n)
  {
    WiredAfterRun(c, senders[k], k, Start(c, senders), ops);
  }
}
