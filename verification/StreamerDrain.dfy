/** That the FIFO does not overflow, and how a stream ends. */
module StreamerDrain {
  import opened Wrappers
  import opened ByteStrings
  import opened AudioBuffers
  import opened LiveDecoders
  import opened Encoders
  import opened RtpSenders
  import opened Sequences
  import ModArith
  import opened StreamerRuns
  import opened Streamers

  // ----- Overflow -----

  lemma {:induction false} DecodeSomeFits(
    limit: nat, d: Decoder, fifo: seq<Pcm>, rx: seq<Recv>, capacity: nat, target: nat)
    requires |fifo| + limit <= capacity
    ensures !DecodeSome(limit, d, fifo, rx, capacity, target).overflow
  {
    if limit > 0 {
      var r := DecodePacket(d, rx, target);
      if r.frame.Some? {
        DecodeSomeFits(limit - 1, r.decoder, fifo + [r.frame.value], r.rx, capacity, target);
      }
    }
  }

  ghost predicate NoNewOverflow(s: Streamer, t: Streamer) {
    t.fault == s.fault || t.fault == Some(Encryption) || t.fault == Some(Resampling)
  }

  /** Below the low watermark a buffer of four or more has room for a whole batch. */
  lemma RefillFits(c: Config, s: Streamer, rx: seq<Recv>)
    requires c.capacity >= 4
    ensures NoNewOverflow(s, Refill(c, s, rx))
  {
    if !FilledTo(|s.fifo|, c.capacity, BUFFER_LOW_WATERMARK_PERCENT) {
      DecodeSomeFits(DECODE_BATCH_LIMIT, s.decoder, s.fifo, rx, c.capacity, c.Target());
    }
  }

  lemma PlayNoOverflow(c: Config, s: Streamer, wallNs: u64, delivered: bool)
    requires c.Valid()
    ensures NoNewOverflow(s, Play(c, s, wallNs, delivered))
  {
    if s.fifo != [] && s.senders != [] {
      var e := Encode(s.encoder, c.format, s.fifo[0]);
      var coded := s.(fifo := s.fifo[1..], encoder := e.encoder, encoded := s.encoded + [e.packet.pcm]);
      TransmitKeeps(c, coded, e.packet, wallNs, delivered);
    }
  }

  lemma StepNoOverflow(c: Config, s: Streamer, op: Op)
    requires c.Valid() && c.capacity >= 4
    ensures NoNewOverflow(s, Step(c, s, op))
  {
    if Works(s, op) {
      RefillFits(c, Timed(s, op.latest), op.rx);
      var refilled := Refill(c, Timed(s, op.latest), op.rx);
      if !refilled.finished && Decide(c, refilled).Ready? {
        PlayNoOverflow(c, Decided(refilled, Decide(c, refilled)), op.wallNs, op.delivered);
      }
    }
  }

  lemma {:induction false} RunNoOverflow(c: Config, s: Streamer, ops: seq<Op>)
    requires c.Valid() && c.capacity >= 4 && s.fault != Some(BufferOverflow)
    ensures Run(c, s, ops).fault != Some(BufferOverflow)
    decreases |ops|
  {
    if ops != [] {
      StepNoOverflow(c, s, ops[0]);
      RunNoOverflow(c, Step(c, s, ops[0]), ops[1..]);
    }
  }

  // ----- Senders that never fail -----

  ghost predicate NeverFails(sender: Sender) {
    sender.cipher.Some? ==>
      forall payload: Bytes, timestamp: u32, ssrc: u32, sequence: u16 ::
        sender.cipher.value(payload, timestamp, ssrc, sequence).Some?
  }

  ghost predicate Reliable(senders: seq<Sender>) {
    forall k :: 0 <= k < |senders| ==> NeverFails(senders[k])
  }

  lemma PrepareSucceeds(sender: Sender, payloadType: byte, rtp: u32, payload: Bytes, marker: bool)
    requires NeverFails(sender)
    ensures
      var (after, wire) := Prepare(sender, payloadType, rtp, payload, marker);
      wire.Some? && NeverFails(after)
  {}

  lemma {:induction false} PrepareAllSucceeds(
    senders: seq<Sender>, payloadType: byte, rtp: u32, payload: Bytes, marker: bool)
    requires Reliable(senders)
    ensures
      var p := PrepareAll(senders, payloadType, rtp, payload, marker);
      p.wires.Some? && Reliable(p.senders)
    decreases |senders|
  {
    if senders != [] {
      var last := |senders| - 1;
      PrepareAllSucceeds(senders[..last], payloadType, rtp, payload, marker);
      PrepareSucceeds(senders[last], payloadType, rtp, payload, marker);
    }
  }

  lemma TransmitSucceeds(c: Config, s: Streamer, packet: EncodedPacket, wallNs: u64)
    requires s.senders != [] && Reliable(s.senders)
    ensures
      var t := Transmit(c, s, packet, wallNs, true);
      && t.fault == s.fault && t.status == s.status && !t.finished
      && |t.sent| == |s.sent| + 1 && Reliable(t.senders) && |t.senders| == |s.senders|
  {
    var rtp: u32 := packet.timestamp % TWO_32;
    var marker := !s.firstPacketSent;
    var needSync := NeedSync(marker, s.lastSyncRtp, rtp, c.format.sampleRate);
    var renderNs := RenderTime(c, s.clockOffset, wallNs);
    var sync := SyncIf(needSync, c, s.senders[0], rtp, renderNs);
    SyncKeepsLog(c, needSync, s.senders[0], rtp, renderNs);
    assert NeverFails(s.senders[0]);
    assert NeverFails(sync.sender);
    PrepareAllSucceeds(s.senders[0 := sync.sender], c.payloadType, rtp, c.codec(s.encoded), marker);
  }

  /** One frame has been taken from the queue and sent, all else being as before. */
  ghost predicate PlayedOne(s: Streamer, t: Streamer) {
    && s.fifo != [] && t.fifo == s.fifo[1..] && t.decoder == s.decoder
    && t.status == s.status && t.fault == s.fault && !t.finished
    && |t.encoded| == |s.encoded| + 1
    && |t.senders| == |s.senders| && Reliable(t.senders)
    && |t.sent| == |s.sent| + if s.senders == [] then 0 else 1
  }

  lemma PlaySucceeds(c: Config, s: Streamer, wallNs: u64)
    requires c.Valid() && s.fifo != [] && Reliable(s.senders) && !s.finished
    ensures PlayedOne(s, Play(c, s, wallNs, true))
  {
    var e := Encode(s.encoder, c.format, s.fifo[0]);
    var coded := s.(fifo := s.fifo[1..], encoder := e.encoder, encoded := s.encoded + [e.packet.pcm]);
    if s.senders != [] {
      TransmitKeeps(c, coded, e.packet, wallNs, true);
      TransmitSucceeds(c, coded, e.packet, wallNs);
    }
  }

  // ----- Draining -----

  lemma DivStep(a: nat, t: nat)
    requires t > 0 && a >= t
    ensures (a - t) / t == a / t - 1 && (a - t) % t == a % t
  {
    assert a == (a / t - 1) * t + t + a % t;
    ModArith.DivModUnique(a - t, a / t - 1, a % t, t);
  }

  /** Whole packets in the residual. */
  function Unqueued(d: Decoder, target: nat): nat
    requires target > 0
  {
    |d.residual| / target
  }

  /** Whole packets still to be played. */
  function Remaining(fifo: seq<Pcm>, d: Decoder, target: nat): nat
    requires target > 0
  {
    |fifo| + Unqueued(d, target)
  }

  lemma {:induction false} DecodeSomeAtEof(
    limit: nat, d: Decoder, fifo: seq<Pcm>, rx: seq<Recv>, capacity: nat, target: nat)
    requires d.eof && target > 0
    ensures
      var b := DecodeSome(limit, d, fifo, rx, capacity, target);
      && b.decoder == d.(residual := b.decoder.residual)
      && |b.decoder.residual| % target == |d.residual| % target
      && (!b.overflow ==> Remaining(b.fifo, b.decoder, target) == Remaining(fifo, d, target))
      && |b.fifo| >= |fifo|
      && (limit > 0 && capacity > |fifo| && |d.residual| >= target ==> |b.fifo| > |fifo|)
  {
    if limit > 0 {
      PacketAtEof(d, rx, target);
      if |d.residual| >= target {
        DivStep(|d.residual|, target);
        if |fifo| < capacity {
          var next := d.(residual := d.residual[target..]);
          DecodeSomeAtEof(limit - 1, next, fifo + [d.residual[..target]], rx, capacity, target);
        }
      }
    }
  }

  /** Streaming, with the channel closed and nothing that can fail. */
  ghost predicate Draining(s: Streamer) {
    && s.status == Streaming && !s.finished && s.fault.None?
    && s.decoder.eof && !s.decoder.failed && Reliable(s.senders)
  }

  /** A tick refills from the residual without changing what remains to be played. */
  ghost predicate Refilled(c: Config, s: Streamer, u: Streamer)
    requires c.Target() > 0
  {
    && u.decoder == s.decoder.(residual := u.decoder.residual)
    && |u.decoder.residual| % c.Target() == |s.decoder.residual| % c.Target()
    && Remaining(u.fifo, u.decoder, c.Target()) == Remaining(s.fifo, s.decoder, c.Target())
    && (Remaining(s.fifo, s.decoder, c.Target()) > 0 ==> u.fifo != [])
    && u.status == s.status && u.finished == s.finished && u.fault == s.fault
    && u.senders == s.senders && u.encoded == s.encoded && u.sent == s.sent
  }

  lemma DivZero(a: nat, t: nat)
    requires t > 0
    ensures a < t <==> a / t == 0
    ensures a < t ==> a % t == a
  {
    if a < t { ModArith.DivModUnique(a, 0, a, t); }
  }

  lemma RefillDrains(c: Config, s: Streamer, rx: seq<Recv>)
    requires c.Valid() && c.capacity >= 4 && c.Target() > 0 && s.decoder.eof && !s.decoder.failed
    ensures Refilled(c, s, Refill(c, s, rx))
  {
    RefillFits(c, s, rx);
    DivZero(|s.decoder.residual|, c.Target());
    if !FilledTo(|s.fifo|, c.capacity, BUFFER_LOW_WATERMARK_PERCENT) {
      DecodeSomeFits(DECODE_BATCH_LIMIT, s.decoder, s.fifo, rx, c.capacity, c.Target());
      DecodeSomeAtEof(DECODE_BATCH_LIMIT, s.decoder, s.fifo, rx, c.capacity, c.Target());
    }
  }

  /** What one tick of a drain leaves behind. */
  ghost predicate DrainedOne(c: Config, s: Streamer, t: Streamer)
    requires c.Target() > 0
  {
    && Draining(t) && t.decoder == s.decoder.(residual := t.decoder.residual)
    && |t.decoder.residual| % c.Target() == |s.decoder.residual| % c.Target()
    && Remaining(t.fifo, t.decoder, c.Target()) == Remaining(s.fifo, s.decoder, c.Target()) - 1
    && |t.encoded| == |s.encoded| + 1 && |t.senders| == |s.senders|
    && |t.sent| == |s.sent| + if s.senders == [] then 0 else 1
  }

  lemma DrainTick(c: Config, s: Streamer, op: Op)
    requires c.Valid() && c.capacity >= 4 && c.Target() > 0 && Draining(s) && op.Tick? && op.delivered
    requires Remaining(s.fifo, s.decoder, c.Target()) > 0
    ensures DrainedOne(c, s, Step(c, s, op))
  {
    var timed := Timed(s, op.latest);
    RefillDrains(c, timed, op.rx);
    var refilled := Refill(c, timed, op.rx);
    PlaySucceeds(c, refilled, op.wallNs);
    assert Step(c, s, op) == Play(c, refilled, op.wallNs, true);
  }

  ghost predicate StoppedAfter(s: Streamer, t: Streamer) {
    && t.status == Stopped && t.finished && t.fault.None? && t.fifo == []
    && t.decoder == s.decoder && t.encoded == s.encoded && t.sent == s.sent
  }

  lemma StarvedRefill(c: Config, s: Streamer, rx: seq<Recv>)
    requires c.Target() > 0 && s.decoder.eof && !s.decoder.failed && |s.decoder.residual| < c.Target()
    ensures Refill(c, s, rx) == s
  {
    PacketAtEof(s.decoder, rx, c.Target());
  }

  /** With nothing left to play, one tick is an underrun. */
  lemma UnderrunTick(c: Config, s: Streamer, op: Op)
    requires c.Valid() && c.Target() > 0 && Draining(s) && op.Tick?
    requires s.fifo == [] && |s.decoder.residual| < c.Target()
    ensures Step(c, s, op) == Timed(s, op.latest).(status := Buffering, underruns := s.underruns + 1)
  {
    StarvedRefill(c, Timed(s, op.latest), op.rx);
  }

  /** And the next one stops. */
  lemma HaltTick(c: Config, s: Streamer, op: Op)
    requires c.Valid() && c.Target() > 0 && op.Tick? && s.status == Buffering && !s.finished && s.fault.None?
    requires s.decoder.eof && !s.decoder.failed && s.fifo == [] && |s.decoder.residual| < c.Target()
    ensures StoppedAfter(s, Step(c, s, op))
  {
    StarvedRefill(c, Timed(s, op.latest), op.rx);
  }

  lemma LastTicks(c: Config, s: Streamer, a: Op, b: Op)
    requires c.Valid() && c.Target() > 0 && Draining(s) && a.Tick? && b.Tick?
    requires Remaining(s.fifo, s.decoder, c.Target()) == 0
    ensures StoppedAfter(s, Step(c, Step(c, s, a), b))
  {
    DivZero(|s.decoder.residual|, c.Target());
    UnderrunTick(c, s, a);
    HaltTick(c, Step(c, s, a), b);
  }

  ghost predicate AllTicks(ops: seq<Op>) {
    forall i :: 0 <= i < |ops| ==> ops[i].Tick? && ops[i].delivered
  }

  lemma {:induction false} StaysStopped(c: Config, s: Streamer, ops: seq<Op>)
    requires c.Valid() && Over(s) && AllTicks(ops)
    ensures Run(c, s, ops) == s
    decreases |ops|
  {
    if ops != [] { StaysStopped(c, s, ops[1..]); }
  }

  /** A drain plays exactly the whole packets that are left, then stops, and stays stopped. */
  ghost predicate Drained(c: Config, s: Streamer, t: Streamer)
    requires c.Target() > 0
  {
    var count := Remaining(s.fifo, s.decoder, c.Target());
    && t.status == Stopped && t.fault.None? && t.fifo == []
    && t.decoder == s.decoder.(residual := t.decoder.residual)
    && |t.decoder.residual| == |s.decoder.residual| % c.Target()
    && |t.encoded| == |s.encoded| + count
    && |t.sent| == |s.sent| + if s.senders == [] then 0 else count
  }

  lemma DrainedStep(c: Config, s: Streamer, u: Streamer, t: Streamer)
    requires c.Target() > 0 && DrainedOne(c, s, u) && Drained(c, u, t)
    ensures Drained(c, s, t)
  {}

  lemma DrainedAtEnd(c: Config, s: Streamer, t: Streamer)
    requires c.Target() > 0 && StoppedAfter(s, t) && Remaining(s.fifo, s.decoder, c.Target()) == 0
    ensures Drained(c, s, t)
  {
    DivZero(|s.decoder.residual|, c.Target());
  }

  lemma DrainEnds(c: Config, s: Streamer, ops: seq<Op>)
    requires c.Valid() && c.capacity >= 4 && c.Target() > 0 && Draining(s) && AllTicks(ops)
    requires |ops| >= 2 && Remaining(s.fifo, s.decoder, c.Target()) == 0
    ensures StoppedAfter(s, Run(c, s, ops))
  {
    LastTicks(c, s, ops[0], ops[1]);
    RunTwo(c, s, ops);
    StaysStopped(c, Step(c, Step(c, s, ops[0]), ops[1]), ops[2..]);
  }

  lemma RunTwo(c: Config, s: Streamer, ops: seq<Op>)
    requires c.Valid() && |ops| >= 2
    ensures Run(c, s, ops) == Run(c, Step(c, Step(c, s, ops[0]), ops[1]), ops[2..])
  {
    assert ops[1..][0] == ops[1] && ops[1..][1..] == ops[2..];
  }

  lemma {:induction false} Drains(c: Config, s: Streamer, ops: seq<Op>)
    requires c.Valid() && c.capacity >= 4 && c.Target() > 0 && Draining(s) && AllTicks(ops)
    requires |ops| >= Remaining(s.fifo, s.decoder, c.Target()) + 2
    ensures Drained(c, s, Run(c, s, ops))
    decreases |ops|
  {
    if Remaining(s.fifo, s.decoder, c.Target()) > 0 {
      DrainTick(c, s, ops[0]);
      var u := Step(c, s, ops[0]);
      Drains(c, u, ops[1..]);
      DrainedStep(c, s, u, Run(c, u, ops[1..]));
    } else {
      DrainEnds(c, s, ops);
      DrainedAtEnd(c, s, Run(c, s, ops));
    }
  }

  lemma {:induction false} FlattenLength(frames: seq<Pcm>, target: nat)
    requires FullSize(frames, target)
    ensures |Flatten(frames)| == |frames| * target
    decreases |frames|
  {
    if frames != [] {
      var n := |frames| - 1;
      FlattenLength(frames[..n], target);
      assert |Flatten(frames)| == |Flatten(frames[..n])| + target;
      assert (n + 1) * target == n * target + target;
    }
  }

  lemma ModAtMost(a: nat, t: nat)
    requires t > 0
    ensures 0 <= a % t <= a
  {}

  /** The longest prefix that is made of whole packets. */
  function WholePart(pcm: Pcm, target: nat): Pcm
    requires target > 0
  {
    ModAtMost(|pcm|, target);
    pcm[..|pcm| - |pcm| % target]
  }

  lemma WholeAndRest(played: Pcm, rest: Pcm, received: Pcm, n: nat, target: nat)
    requires target > 0 && |played| == n * target && |rest| < target
    requires received == played + Flatten<int>([]) + rest
    ensures played == WholePart(received, target)
  {
    ModArith.DivModUnique(|received|, n, |rest|, target);
  }

  /** What was played is what was received, cut to whole packets. */
  ghost predicate PlayedWhole(c: Config, t: Streamer)
    requires c.Target() > 0
  {
    Flatten(t.encoded) == WholePart(t.decoder.Received(), c.Target())
  }

  lemma DrainedPlaysWhole(c: Config, s: Streamer, t: Streamer)
    requires c.Target() > 0 && Drained(c, s, t) && FullSize(t.encoded, c.Target())
    requires Flatten(t.encoded) + Flatten(t.fifo) + t.decoder.residual == t.decoder.Received()
    ensures PlayedWhole(c, t)
  {
    FlattenLength(t.encoded, c.Target());
    WholeAndRest(Flatten(t.encoded), t.decoder.residual, t.decoder.Received(), |t.encoded|, c.Target());
  }

  /**
   * From the start to the stop: all that was received before the drain is played, in order, but for the
   * tail that does not fill a packet.
   */
  lemma PlayedIsReceived(c: Config, senders: seq<Sender>, before: seq<Op>, ticks: seq<Op>)
    requires c.Valid() && c.capacity >= 4 && c.Target() > 0 && AllTicks(ticks)
    requires
      var s := Run(c, Start(c, senders), before);
      Draining(s) && |ticks| >= Remaining(s.fifo, s.decoder, c.Target()) + 2
    ensures
      var s, t := Run(c, Start(c, senders), before), Run(c, Start(c, senders), before + ticks);
      Drained(c, s, t) && PlayedWhole(c, t)
  {
    var start := Start(c, senders);
    var s := Run(c, start, before);
    Drains(c, s, ticks);
    RunConcat(c, start, before, ticks);
    Conservation(c, senders, before + ticks);
    DrainedPlaysWhole(c, s, Run(c, start, before + ticks));
  }

  // ----- Too small a buffer -----

  function Burst(limit: nat, packet: Pcm): seq<Recv> {
    seq(limit, _ => Frame(packet))
  }

  /** Open, empty, and passing frames on as they are. */
  ghost predicate Fresh(d: Decoder) {
    d.residual == [] && !d.eof && !d.failed && PassesThrough(d.convert)
  }

  lemma {:induction false} BurstFills(
    limit: nat, d: Decoder, fifo: seq<Pcm>, packet: Pcm, capacity: nat, target: nat)
    requires Fresh(d) && |packet| == target > 0
    ensures
      var b := DecodeSome(limit, d, fifo, Burst(limit, packet), capacity, target);
      && (b.overflow <==> limit > 0 && |fifo| + limit > capacity)
      && (!b.overflow ==> |b.fifo| == |fifo| + limit && Fresh(b.decoder))
  {
    if limit > 0 {
      var rx := Burst(limit, packet);
      assert rx[1..] == Burst(limit - 1, packet);
      var received := d.(frames := d.frames + [packet], residual := packet);
      assert d.residual + packet == packet;
      assert Collect(d, rx, target) == Collect(received, rx[1..], target) == Decoded(received, rx[1..], None);
      assert packet[target..] == [] && packet[..target] == packet;
      if |fifo| < capacity {
        BurstFills(limit - 1, received.(residual := []), fifo + [packet], packet, capacity, target);
      }
    }
  }

  function BurstTick(packet: Pcm): Op {
    Tick(Burst(DECODE_BATCH_LIMIT, packet), None, 0, true, false)
  }

  lemma OverflowTick(c: Config, s: Streamer, packet: Pcm)
    requires c.Valid() && |packet| == c.Target() > 0 && !Over(s) && s.status != Paused
    requires Fresh(s.decoder)
    requires |s.fifo| * 100 < 40 * c.capacity && |s.fifo| + 3 > c.capacity
    ensures Step(c, s, BurstTick(packet)).fault == Some(BufferOverflow)
  {
    BurstFills(DECODE_BATCH_LIMIT, s.decoder, s.fifo, packet, c.capacity, c.Target());
  }

  /** Three packets fill a buffer of three, and one of them is played. */
  lemma FillTick(c: Config, s: Streamer, packet: Pcm)
    requires c.Valid() && |packet| == c.Target() > 0 && c.capacity == 3
    requires s.status == Buffering && !s.finished && s.fifo == [] && Reliable(s.senders)
    requires Fresh(s.decoder)
    ensures
      var t := Step(c, s, BurstTick(packet));
      && t.status == Streaming && !t.finished && |t.fifo| == 2 && Reliable(t.senders)
      && Fresh(t.decoder)
  {
    BurstFills(DECODE_BATCH_LIMIT, s.decoder, s.fifo, packet, c.capacity, c.Target());
    var refilled := Refill(c, s, Burst(DECODE_BATCH_LIMIT, packet));
    PlaySucceeds(c, refilled.(status := Streaming), 0);
  }

  lemma PlayTick(c: Config, s: Streamer)
    requires c.Valid() && c.capacity == 3
    requires s.status == Streaming && !s.finished && |s.fifo| == 2 && Reliable(s.senders)
    requires Fresh(s.decoder)
    ensures
      var t := Step(c, s, Tick([], None, 0, true, false));
      && t.status == Streaming && !t.finished && |t.fifo| == 1
      && Fresh(t.decoder)
  {
    PlaySucceeds(c, s, 0);
  }

  /** A buffer of one, two or three packets can be made to overflow. */
  lemma SmallBufferOverflows(c: Config, senders: seq<Sender>) returns (ops: seq<Op>)
    requires c.Valid() && c.capacity < 4 && c.Target() > 0 && Reliable(senders) && PassesThrough(c.convert)
    ensures Run(c, Start(c, senders), ops).fault == Some(BufferOverflow)
  {
    var packet := seq(c.Target(), _ => 0);
    var s := Start(c, senders);
    var burst := BurstTick(packet);
    if c.capacity < 3 {
      OverflowTick(c, s, packet);
      ops := [burst];
      RunOne(c, s, burst);
    } else {
      FillTick(c, s, packet);
      var filled := Step(c, s, burst);
      PlayTick(c, filled);
      var tick := Tick([], None, 0, true, false);
      OverflowTick(c, Step(c, filled, tick), packet);
      ops := [burst, tick, burst];
      RunTwo(c, s, ops);
      assert ops[2..] == [burst];
      RunOne(c, Step(c, filled, tick), burst);
    }
  }

  ghost predicate CanOverflow(c: Config, senders: seq<Sender>)
    requires c.Valid()
  {
    exists ops :: Run(c, Start(c, senders), ops).fault == Some(BufferOverflow)
  }

  /** The FIFO can overflow exactly when it holds fewer than four packets. */
  lemma OverflowsIffSmall(c: Config, senders: seq<Sender>)
    requires c.Valid() && c.Target() > 0 && Reliable(senders) && PassesThrough(c.convert)
    ensures CanOverflow(c, senders) <==> c.capacity < 4
  {
    if c.capacity < 4 {
      var ops := SmallBufferOverflows(c, senders);
    } else {
      forall ops
        ensures Run(c, Start(c, senders), ops).fault != Some(BufferOverflow)
      {
        RunNoOverflow(c, Start(c, senders), ops);
      }
    }
  }

  // ----- The end of a stream that is still buffering -----

  /** The formats of the library, and the buffer that the streamer makes for them. */
  predicate LibraryFormat(c: Config) {
    && c.format.channels > 0 && c.format.sampleRate in {44_100, 48_000} && c.format.framesPerPacket in {352, 1024}
    && c.capacity == CapacityFrames(c.format, DEFAULT_BUFFER_CAPACITY_MS)
  }

  /** So no run of the library's own streams ever overflows its buffer. */
  lemma LibraryStreamsFit(c: Config, senders: seq<Sender>, ops: seq<Op>)
    requires LibraryFormat(c)
    ensures 85 <= c.capacity <= 272 && Run(c, Start(c, senders), ops).fault != Some(BufferOverflow)
  {
    LibraryCapacities(c.format.channels);
    assert c.format == Format(c.format.sampleRate, c.format.channels, c.format.framesPerPacket);
    RunNoOverflow(c, Start(c, senders), ops);
  }

  /** Given packets to decode, a refill queues some exactly when less than two fifths of the buffer are full. */
  lemma RefillsIffLow(c: Config, s: Streamer, rx: seq<Recv>)
    requires c.Valid() && DecodePacket(s.decoder, rx, c.Target()).frame.Some?
    ensures |Refill(c, s, rx).fifo| > |s.fifo| <==> 5 * |s.fifo| < 2 * c.capacity
  {
    var r := DecodePacket(s.decoder, rx, c.Target());
    if |s.fifo| < c.capacity {
      QueueGrows(DECODE_BATCH_LIMIT - 1, r.decoder, s.fifo + [r.frame.value], r.rx, c.capacity, c.Target());
    }
  }

  lemma {:induction false} QueueGrows(
    limit: nat, d: Decoder, fifo: seq<Pcm>, rx: seq<Recv>, capacity: nat, target: nat)
    ensures |DecodeSome(limit, d, fifo, rx, capacity, target).fifo| >= |fifo|
  {
    if limit > 0 {
      var r := DecodePacket(d, rx, target);
      if r.frame.Some? && |fifo| < capacity {
        QueueGrows(limit - 1, r.decoder, fifo + [r.frame.value], r.rx, capacity, target);
      }
    }
  }

  lemma {:induction false} FinishedSendsNothing(c: Config, s: Streamer, ops: seq<Op>)
    requires c.Valid() && s.finished
    ensures Run(c, s, ops).sent == s.sent
    decreases |ops|
  {
    if ops != [] { FinishedSendsNothing(c, Step(c, s, ops[0]), ops[1..]); }
  }

  lemma ContinueUndelivered(c: Config, s: Streamer, wallNs: u64)
    requires c.Valid()
    ensures
      var t := Continue(c, s, wallNs, false);
      t.sent == s.sent || t.finished
  {
    var played := Decided(s, Decide(c, s));
    if Decide(c, s).Ready? && played.fifo != [] && played.senders != [] {
      var e := Encode(played.encoder, c.format, played.fifo[0]);
      var coded :=
        played.(fifo := played.fifo[1..], encoder := e.encoder, encoded := played.encoded + [e.packet.pcm]);
      assert Play(c, played, wallNs, false) == Transmit(c, coded, e.packet, wallNs, false);
    }
  }

  lemma RefillSendsNothing(c: Config, s: Streamer, rx: seq<Recv>)
    ensures Refill(c, s, rx).sent == s.sent
  {}

  /** A message that the sender thread does not take any more is the last one, whatever comes after it. */
  lemma UndeliveredIsLast(c: Config, s: Streamer, op: Op, ops: seq<Op>)
    requires c.Valid() && op.Tick? && !op.delivered && Step(c, s, op).sent != s.sent
    ensures Run(c, Step(c, s, op), ops).sent == Step(c, s, op).sent
  {
    var timed := Timed(s, op.latest);
    var refilled := Refill(c, timed, op.rx);
    RefillSendsNothing(c, timed, op.rx);
    if !refilled.finished { ContinueUndelivered(c, refilled, op.wallNs); }
    FinishedSendsNothing(c, Step(c, s, op), ops);
  }

  /** Buffering, with the channel closed and nothing that can fail. */
  ghost predicate Ending(s: Streamer) {
    && s.status == Buffering && !s.finished && s.fault.None?
    && s.decoder.eof && !s.decoder.failed && Reliable(s.senders)
  }

  /** Below the low watermark a tick takes at least one packet from the residual, if there is one. */
  lemma RefillProgress(c: Config, s: Streamer, rx: seq<Recv>)
    requires c.Valid() && c.capacity >= 4 && c.Target() > 0 && s.decoder.eof && !s.decoder.failed
    requires !FilledTo(|s.fifo|, c.capacity, BUFFER_LOW_WATERMARK_PERCENT) && |s.decoder.residual| >= c.Target()
    ensures |Refill(c, s, rx).fifo| > |s.fifo|
  {
    DecodeSomeFits(DECODE_BATCH_LIMIT, s.decoder, s.fifo, rx, c.capacity, c.Target());
    DecodeSomeAtEof(DECODE_BATCH_LIMIT, s.decoder, s.fifo, rx, c.capacity, c.Target());
  }

  predicate PlaysNext(c: Config, s: Streamer, op: Op)
    requires op.Tick?
  {
    FilledBeyond(|Refill(c, Timed(s, op.latest), op.rx).fifo|, c.capacity, BUFFER_RESUME_FILL_PERCENT)
  }

  lemma StartsPlaying(c: Config, s: Streamer, op: Op)
    requires c.Valid() && c.capacity >= 4 && c.Target() > 0 && Ending(s) && op.Tick? && op.delivered
    requires PlaysNext(c, s, op)
    ensures DrainedOne(c, s, Step(c, s, op))
  {
    var timed := Timed(s, op.latest);
    RefillDrains(c, timed, op.rx);
    var ready := Refill(c, timed, op.rx).(status := Streaming);
    PlaySucceeds(c, ready, op.wallNs);
    assert Step(c, s, op) == Play(c, ready, op.wallNs, true);
  }

  lemma KeepsWaiting(c: Config, s: Streamer, op: Op)
    requires c.Valid() && c.capacity >= 4 && c.Target() > 0 && Ending(s) && op.Tick?
    requires Remaining(s.fifo, s.decoder, c.Target()) > 0
    requires !PlaysNext(c, s, op)
    ensures Step(c, s, op) == Refill(c, Timed(s, op.latest), op.rx)
    ensures Refilled(c, s, Step(c, s, op)) && Ending(Step(c, s, op))
  {
    RefillDrains(c, Timed(s, op.latest), op.rx);
  }

  /** Whole packets that can still be played, but not more of them than the resume level. */
  ghost predicate TooFew(c: Config, s: Streamer)
    requires c.Target() > 0
  {
    var left := Remaining(s.fifo, s.decoder, c.Target());
    0 < left && left * 100 <= 10 * c.capacity
  }

  ghost predicate Plenty(c: Config, s: Streamer)
    requires c.Target() > 0
  {
    FilledBeyond(Remaining(s.fifo, s.decoder, c.Target()), c.capacity, BUFFER_RESUME_FILL_PERCENT)
  }

  /** Nothing is played, and too few packets are left to start playing. */
  ghost predicate StillWaiting(c: Config, s: Streamer, t: Streamer)
    requires c.Target() > 0
  {
    Ending(t) && TooFew(c, t) && t.encoded == s.encoded && t.sent == s.sent
  }

  lemma TooFewToPlay(c: Config, s: Streamer, op: Op)
    requires c.Valid() && c.capacity >= 4 && c.Target() > 0 && op.Tick?
    requires s.decoder.eof && !s.decoder.failed && TooFew(c, s)
    ensures !PlaysNext(c, s, op)
  {
    RefillDrains(c, Timed(s, op.latest), op.rx);
  }

  lemma StillTooFew(c: Config, s: Streamer, t: Streamer)
    requires c.Target() > 0 && Refilled(c, s, t) && Ending(t) && TooFew(c, s)
    ensures StillWaiting(c, s, t)
  {}

  lemma WaitingStep(c: Config, s: Streamer, op: Op)
    requires c.Valid() && c.capacity >= 4 && c.Target() > 0 && Ending(s) && op.Tick? && TooFew(c, s)
    ensures StillWaiting(c, s, Step(c, s, op))
  {
    TooFewToPlay(c, s, op);
    KeepsWaiting(c, s, op);
    StillTooFew(c, s, Step(c, s, op));
  }

  /** Too few packets are never played: the loop waits for more for as long as it runs. */
  lemma {:induction false} WaitsForever(c: Config, s: Streamer, ops: seq<Op>)
    requires c.Valid() && c.capacity >= 4 && c.Target() > 0 && Ending(s) && AllTicks(ops) && TooFew(c, s)
    ensures StillWaiting(c, s, Run(c, s, ops))
    decreases |ops|
  {
    if ops != [] {
      WaitingStep(c, s, ops[0]);
      WaitsForever(c, Step(c, s, ops[0]), ops[1..]);
    }
  }

  lemma DrainedAfterWait(c: Config, s: Streamer, u: Streamer, t: Streamer)
    requires c.Target() > 0 && Refilled(c, s, u) && Drained(c, u, t)
    ensures Drained(c, s, t)
  {}

  /** The residual shrinks by at least one packet when more packets are queued. */
  lemma ResidualShrinks(c: Config, s: Streamer, u: Streamer)
    requires c.Target() > 0 && Refilled(c, s, u) && |u.fifo| > |s.fifo|
    ensures Unqueued(u.decoder, c.Target()) < Unqueued(s.decoder, c.Target())
  {}

  lemma WaitStep(c: Config, s: Streamer, op: Op)
    requires c.Valid() && c.capacity >= 4 && c.Target() > 0 && Ending(s) && op.Tick?
    requires Plenty(c, s) && !PlaysNext(c, s, op)
    ensures
      var u := Step(c, s, op);
      && Ending(u) && Refilled(c, s, u)
      && Unqueued(u.decoder, c.Target()) < Unqueued(s.decoder, c.Target())
  {
    var timed := Timed(s, op.latest);
    DivZero(|s.decoder.residual|, c.Target());
    RefillDrains(c, timed, op.rx);
    RefillProgress(c, timed, op.rx);
    KeepsWaiting(c, s, op);
    ResidualShrinks(c, s, Step(c, s, op));
  }

  /** A whole packet has moved from the residual to the queue. */
  ghost predicate WaitedOne(c: Config, s: Streamer, u: Streamer)
    requires c.Target() > 0
  {
    Ending(u) && Refilled(c, s, u) && Unqueued(u.decoder, c.Target()) < Unqueued(s.decoder, c.Target())
  }

  /** Ticks enough to move every packet to the queue, to play every packet, and to stop. */
  ghost predicate Enough(c: Config, s: Streamer, ticks: nat)
    requires c.Target() > 0
  {
    ticks >= Remaining(s.fifo, s.decoder, c.Target()) + Unqueued(s.decoder, c.Target()) + 2
  }

  lemma EndingStep(c: Config, s: Streamer, op: Op)
    requires c.Valid() && c.capacity >= 4 && c.Target() > 0 && Ending(s) && op.Tick? && op.delivered && Plenty(c, s)
    ensures DrainedOne(c, s, Step(c, s, op)) || WaitedOne(c, s, Step(c, s, op))
  {
    if PlaysNext(c, s, op) { StartsPlaying(c, s, op); } else { WaitStep(c, s, op); }
  }

  lemma LessToDo(c: Config, s: Streamer, u: Streamer, ticks: nat)
    requires c.Target() > 0 && Enough(c, s, ticks) && Plenty(c, s)
    requires DrainedOne(c, s, u) || WaitedOne(c, s, u)
    ensures ticks > 0
    ensures DrainedOne(c, s, u) ==> ticks - 1 >= Remaining(u.fifo, u.decoder, c.Target()) + 2
    ensures WaitedOne(c, s, u) ==> Plenty(c, u) && Enough(c, u, ticks - 1)
  {}

  lemma {:induction false} EndsDrainedAfter(c: Config, s: Streamer, u: Streamer, rest: seq<Op>)
    requires c.Valid() && c.capacity >= 4 && c.Target() > 0 && AllTicks(rest)
    requires Plenty(c, s) && Enough(c, s, |rest| + 1) && (DrainedOne(c, s, u) || WaitedOne(c, s, u))
    ensures Drained(c, s, Run(c, u, rest))
    decreases |rest|, 1
  {
    LessToDo(c, s, u, |rest| + 1);
    if DrainedOne(c, s, u) {
      Drains(c, u, rest);
      DrainedStep(c, s, u, Run(c, u, rest));
    } else {
      EndsDrained(c, u, rest);
      DrainedAfterWait(c, s, u, Run(c, u, rest));
    }
  }

  /** More than that are all played: the buffer fills past the resume level first. */
  lemma {:induction false} EndsDrained(c: Config, s: Streamer, ops: seq<Op>)
    requires c.Valid() && c.capacity >= 4 && c.Target() > 0 && Ending(s) && AllTicks(ops)
    requires Plenty(c, s) && Enough(c, s, |ops|)
    ensures Drained(c, s, Run(c, s, ops))
    decreases |ops|, 0
  {
    EndingStep(c, s, ops[0]);
    EndsDrainedAfter(c, s, Step(c, s, ops[0]), ops[1..]);
  }

  lemma EndsAtOnce(c: Config, s: Streamer, ops: seq<Op>)
    requires c.Valid() && c.Target() > 0 && Ending(s) && AllTicks(ops) && ops != []
    requires Remaining(s.fifo, s.decoder, c.Target()) == 0
    ensures Drained(c, s, Run(c, s, ops))
  {
    DivZero(|s.decoder.residual|, c.Target());
    HaltTick(c, s, ops[0]);
    StaysStopped(c, Step(c, s, ops[0]), ops[1..]);
    DrainedAtEnd(c, s, Step(c, s, ops[0]));
  }

  /** Stopped with everything played, or else still waiting. */
  ghost predicate EndsAs(c: Config, s: Streamer, t: Streamer)
    requires c.Target() > 0
  {
    if TooFew(c, s) then StillWaiting(c, s, t) else Drained(c, s, t)
  }

  lemma EndsOneWay(c: Config, s: Streamer, ops: seq<Op>)
    requires c.Valid() && c.capacity >= 4 && c.Target() > 0 && Ending(s) && AllTicks(ops) && Enough(c, s, |ops|)
    ensures EndsAs(c, s, Run(c, s, ops))
  {
    if TooFew(c, s) {
      WaitsForever(c, s, ops);
    } else if Plenty(c, s) {
      EndsDrained(c, s, ops);
    } else {
      EndsAtOnce(c, s, ops);
    }
  }

  lemma StoppedIffDrained(c: Config, s: Streamer, t: Streamer)
    requires c.Target() > 0 && EndsAs(c, s, t)
    ensures t.status == Stopped <==> !TooFew(c, s)
  {}

  /**
   * A stream that ends while buffering is played to its end and stops exactly when nothing, or more than
   * the resume level, is left to play.
   */
  lemma EndsIffEnough(c: Config, s: Streamer, ops: seq<Op>)
    requires c.Valid() && c.capacity >= 4 && c.Target() > 0 && Ending(s) && AllTicks(ops) && Enough(c, s, |ops|)
    ensures Run(c, s, ops).status == Stopped <==> !TooFew(c, s)
    ensures !TooFew(c, s) ==> Drained(c, s, Run(c, s, ops))
  {
    EndsOneWay(c, s, ops);
    StoppedIffDrained(c, s, Run(c, s, ops));
  }
}
