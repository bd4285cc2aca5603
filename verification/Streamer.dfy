/** The streaming loop: refill, buffering decisions, encoding, sync scheduling and packet preparation. */
module Streamers {
  import opened Wrappers
  import opened ByteStrings
  import opened AudioBuffers
  import opened LiveDecoders
  import opened Encoders
  import opened RtpSenders
  import opened Clocks

  const DEFAULT_BUFFER_CAPACITY_MS: nat := 2000
  const BUFFER_LOW_WATERMARK_PERCENT: nat := 40
  const BUFFER_RESUME_FILL_PERCENT: nat := 10
  const DECODE_BATCH_LIMIT: nat := 3
  const SAMPLE_RATE_44100: nat := 44_100
  const AIRPLAY_ALAC_FRAMES_PER_PACKET: nat := 352

  datatype Status = Idle | Buffering | Streaming | Paused | Stopped | Error

  datatype Fault = BufferOverflow | Resampling | Encryption

  /** What does not change while streaming. Resampler and codec see all PCM handed to them so far. */
  datatype Config = Config(
    format: Format, capacity: nat, payloadType: byte, usePtpSync: bool, ptpClockId: Bytes,
    renderDelayNs: u64, convert: Converter, codec: seq<Pcm> -> Bytes)
  {
    ghost predicate Valid() {
      format.channels > 0 && capacity >= 1
    }

    function Target(): nat {
      format.PacketSamples()
    }
  }

  /** One packet handed to the sender thread, with how it came about. */
  datatype Message = Message(
    timestamp: nat, renderNs: u64, marker: bool, needSync: bool, syncData: Option<Bytes>, wirePackets: seq<Bytes>)

  /** The state of a run; `encoded` and `sent` record everything coded and everything handed over. */
  datatype Streamer = Streamer(
    status: Status, fault: Option<Fault>, finished: bool,
    fifo: seq<Pcm>, decoder: Decoder, encoder: Encoder, encoded: seq<Pcm>,
    senders: seq<Sender>, clockOffset: Option<ClockOffset>,
    lastSyncRtp: u32, firstPacketSent: bool, currentTimestamp: nat, packetsSent: nat, underruns: nat,
    sent: seq<Message>)

  /** One turn of the loop, with what it receives, or a call from outside. A turn takes the lock twice: it
      tests the status, and then works. A `late` one was overtaken in between by a call that pauses. */
  datatype Op =
    | Tick(rx: seq<Recv>, latest: Option<ClockOffset>, wallNs: u64, delivered: bool, late: bool)
    | Pause
    | Resume
    | FlushReset

  function Start(c: Config, senders: seq<Sender>): Streamer {
    Streamer(Buffering, None, false, [], NewDecoder(c.convert), NEW_ENCODER, [], senders, None, 0, false, 0, 0, 0, [])
  }

  function Fail(s: Streamer, fault: Fault): Streamer {
    s.(status := Error, fault := Some(fault), finished := true)
  }

  // ----- Refilling -----

  datatype Batch = Batch(decoder: Decoder, fifo: seq<Pcm>, overflow: bool)

  /** Decodes and pushes up to `limit` packets; a packet that does not fit is lost. */
  function DecodeSome(limit: nat, d: Decoder, fifo: seq<Pcm>, rx: seq<Recv>, capacity: nat, target: nat): Batch {
    if limit == 0 then Batch(d, fifo, false)
    else
      var r := DecodePacket(d, rx, target);
      match r.frame
      case None => Batch(r.decoder, fifo, false)
      case Some(frame) =>
        if |fifo| >= capacity then Batch(r.decoder, fifo, true)
        else DecodeSome(limit - 1, r.decoder, fifo + [frame], r.rx, capacity, target)
  }

  function Refill(c: Config, s: Streamer, rx: seq<Recv>): Streamer {
    if FilledTo(|s.fifo|, c.capacity, BUFFER_LOW_WATERMARK_PERCENT) then s
    else
      var b := DecodeSome(DECODE_BATCH_LIMIT, s.decoder, s.fifo, rx, c.capacity, c.Target());
      var refilled := s.(decoder := b.decoder, fifo := b.fifo);
      if b.overflow then Fail(refilled, BufferOverflow)
      else if b.decoder.failed then Fail(refilled, Resampling)
      else refilled
  }

  // ----- Deciding -----

  datatype Action = Ready | Wait | Halt

  function Decide(c: Config, s: Streamer): Action {
    if s.status != Buffering then Ready
    else if FilledBeyond(|s.fifo|, c.capacity, BUFFER_RESUME_FILL_PERCENT) then Ready
    else if s.decoder.eof && s.fifo == [] then Halt
    else Wait
  }

  function Decided(s: Streamer, action: Action): Streamer {
    match action
    case Ready => if s.status == Buffering then s.(status := Streaming) else s
    case Wait => s
    case Halt => s.(status := Stopped, finished := true)
  }

  // ----- Sending one packet -----

  /** The time at which the packet is to be heard. */
  function RenderTime(c: Config, offset: Option<ClockOffset>, wallNs: u64): u64 {
    var adjusted := match offset case None => wallNs case Some(o) => ApplyOffset(wallNs, o);
    (adjusted + c.renderDelayNs) % TWO_64
  }

  predicate NeedSync(first: bool, lastSyncRtp: u32, rtp: u32, sampleRate: nat) {
    first || lastSyncRtp == 0 || (rtp - lastSyncRtp) % TWO_32 >= sampleRate
  }

  function NextTimestamp(rtp: u32, sampleRate: nat): u32 {
    (rtp + sampleRate / SAMPLE_RATE_44100 * AIRPLAY_ALAC_FRAMES_PER_PACKET) % TWO_32
  }

  datatype Synced = Synced(sender: Sender, data: Option<Bytes>)

  function Sync(c: Config, sender: Sender, rtp: u32, renderNs: u64): Synced {
    var r :=
      if c.usePtpSync then PtpSyncStep(sender, rtp, renderNs, NextTimestamp(rtp, c.format.sampleRate), c.ptpClockId)
      else SyncStep(sender, rtp, UnixToNtp(renderNs));
    Synced(r.0, r.1)
  }

  function SyncIf(needSync: bool, c: Config, sender: Sender, rtp: u32, renderNs: u64): Synced {
    if needSync then Sync(c, sender, rtp, renderNs) else Synced(sender, None)
  }

  datatype Prepared = Prepared(senders: seq<Sender>, wires: Option<seq<Bytes>>)

  /** Every sender in turn numbers and encrypts the same payload; the first failure stops. */
  function PrepareAll(senders: seq<Sender>, payloadType: byte, rtp: u32, payload: Bytes, marker: bool): (r: Prepared)
    ensures |r.senders| == |senders| && (r.wires.Some? ==> |r.wires.value| == |senders|)
    decreases |senders|
  {
    if senders == [] then Prepared([], Some([]))
    else
      var last := |senders| - 1;
      var front := PrepareAll(senders[..last], payloadType, rtp, payload, marker);
      if front.wires.None? then Prepared(front.senders + [senders[last]], None)
      else
        var (sender, wire) := Prepare(senders[last], payloadType, rtp, payload, marker);
        Prepared(front.senders + [sender],
                 match wire case None => None case Some(bytes) => Some(front.wires.value + [bytes]))
  }

  /** Everything that is made for one encoded packet. */
  datatype Outgoing = Outgoing(
    rtp: u32, renderNs: u64, marker: bool, needSync: bool, syncData: Option<Bytes>,
    senders: seq<Sender>, wires: Option<seq<Bytes>>)

  /** The encoded packet goes to every sender, after a sync packet of the first sender if one is due. */
  function Compose(c: Config, s: Streamer, packet: EncodedPacket, wallNs: u64): Outgoing
    requires s.senders != []
  {
    var rtp: u32 := packet.timestamp % TWO_32;
    var marker := !s.firstPacketSent;
    var needSync := NeedSync(marker, s.lastSyncRtp, rtp, c.format.sampleRate);
    var renderNs := RenderTime(c, s.clockOffset, wallNs);
    var sync := SyncIf(needSync, c, s.senders[0], rtp, renderNs);
    var p := PrepareAll(s.senders[0 := sync.sender], c.payloadType, rtp, c.codec(s.encoded), marker);
    Outgoing(rtp, renderNs, marker, needSync, sync.data, p.senders, p.wires)
  }

  function Dispatch(s: Streamer, packet: EncodedPacket, o: Outgoing, delivered: bool): Streamer {
    if o.wires.None? then Fail(s.(senders := o.senders), Encryption)
    else
      s.(senders := o.senders,
         lastSyncRtp := if o.needSync then o.rtp else s.lastSyncRtp,
         firstPacketSent := true,
         currentTimestamp := packet.timestamp + packet.frames,
         packetsSent := s.packetsSent + 1,
         sent := s.sent + [Message(packet.timestamp, o.renderNs, o.marker, o.needSync, o.syncData, o.wires.value)],
         finished := !delivered)
  }

  function Transmit(c: Config, s: Streamer, packet: EncodedPacket, wallNs: u64, delivered: bool): Streamer
    requires s.senders != []
  {
    Dispatch(s, packet, Compose(c, s, packet, wallNs), delivered)
  }

  /** The oldest buffered frame is coded and sent; an empty buffer is an underrun. */
  function Play(c: Config, s: Streamer, wallNs: u64, delivered: bool): Streamer
    requires c.Valid()
  {
    if s.fifo == [] then s.(status := Buffering, underruns := s.underruns + 1)
    else
      var e := Encode(s.encoder, c.format, s.fifo[0]);
      var coded := s.(fifo := s.fifo[1..], encoder := e.encoder, encoded := s.encoded + [e.packet.pcm]);
      if s.senders == [] then coded else Transmit(c, coded, e.packet, wallNs, delivered)
  }

  // ----- Steps and runs -----

  function Timed(s: Streamer, latest: Option<ClockOffset>): Streamer {
    if latest.Some? then s.(clockOffset := latest) else s
  }

  function Continue(c: Config, s: Streamer, wallNs: u64, delivered: bool): Streamer
    requires c.Valid()
  {
    var action := Decide(c, s);
    if action.Ready? then Play(c, Decided(s, action), wallNs, delivered) else Decided(s, action)
  }

  function TickStep(c: Config, s: Streamer, op: Op): Streamer
    requires c.Valid() && op.Tick?
  {
    var refilled := Refill(c, Timed(s, op.latest), op.rx);
    if refilled.finished then refilled else Continue(c, refilled, op.wallNs, op.delivered)
  }

  /** The loop has left for good, or will as soon as it looks at the status. */
  predicate Over(s: Streamer) {
    s.finished || s.status == Stopped || s.status == Error
  }

  /** The turn found a status to work in. */
  predicate Works(s: Streamer, op: Op) {
    op.Tick? && !Over(s) && (s.status != Paused || op.late)
  }

  function ResetSenders(senders: seq<Sender>): (r: seq<Sender>)
    ensures |r| == |senders|
  {
    seq(|senders|, i requires 0 <= i < |senders| => ResetSync(senders[i]))
  }

  function Step(c: Config, s: Streamer, op: Op): Streamer
    requires c.Valid()
  {
    match op
    case Tick(_, _, _, _, _) => if Works(s, op) then TickStep(c, s, op) else s
    case Pause => if s.status == Streaming then s.(status := Paused) else s
    case Resume => if s.status == Paused then s.(status := Streaming) else s
    case FlushReset => s.(firstPacketSent := false, senders := ResetSenders(s.senders))
  }

  function Run(c: Config, s: Streamer, ops: seq<Op>): Streamer
    requires c.Valid()
    decreases |ops|
  {
    if ops == [] then s else Run(c, Step(c, s, ops[0]), ops[1..])
  }

  /** The fields that count samples are not touched by sending. */
  lemma TransmitKeeps(c: Config, s: Streamer, packet: EncodedPacket, wallNs: u64, delivered: bool)
    requires s.senders != []
    ensures
      var t := Transmit(c, s, packet, wallNs, delivered);
      && t.fifo == s.fifo && t.decoder == s.decoder && t.encoder == s.encoder && t.encoded == s.encoded
      && t.clockOffset == s.clockOffset && t.underruns == s.underruns
      && (t.fault == s.fault || (t.fault == Some(Encryption) && t.finished && t.status == Error))
  {}

  lemma {:induction false} FailureLeavesTheRest(
    senders: seq<Sender>, payloadType: byte, rtp: u32, payload: Bytes, marker: bool, n: nat)
    requires n <= |senders| && PrepareAll(senders[..n], payloadType, rtp, payload, marker).wires.None?
    ensures PrepareAll(senders, payloadType, rtp, payload, marker)
            == Prepared(PrepareAll(senders[..n], payloadType, rtp, payload, marker).senders + senders[n..], None)
    decreases |senders|
  {
    var last := |senders| - 1;
    if n <= last {
      assert senders[..last][..n] == senders[..n];
      FailureLeavesTheRest(senders[..last], payloadType, rtp, payload, marker, n);
      assert senders[n..] == senders[..last][n..] + [senders[last]];
    } else {
      assert senders[..n] == senders;
    }
  }

  lemma PrepareOneMore(senders: seq<Sender>, payloadType: byte, rtp: u32, payload: Bytes, marker: bool, i: nat)
    requires i < |senders| && PrepareAll(senders[..i], payloadType, rtp, payload, marker).wires.Some?
    ensures
      var front := PrepareAll(senders[..i], payloadType, rtp, payload, marker);
      var (sender, wire) := Prepare(senders[i], payloadType, rtp, payload, marker);
      PrepareAll(senders[..i + 1], payloadType, rtp, payload, marker)
      == Prepared(front.senders + [sender],
                  match wire case None => None case Some(bytes) => Some(front.wires.value + [bytes]))
  {
    assert senders[..i + 1][..i] == senders[..i];
  }

  /** The streamer object: a FIFO, a decoder and an encoder that it updates in place. */
  class AudioStreamer {
    const config: Config
    const buffer: AudioBuffer
    const liveDecoder: LiveAudioDecoder
    const encoder: AlacEncoder
    var status: Status
    var fault: Option<Fault>
    var finished: bool
    var rtpSenders: seq<Sender>
    var clockOffset: Option<ClockOffset>
    var lastSyncRtp: u32
    var firstPacketSent: bool
    var currentTimestamp: nat
    var packetsSent: nat
    var underruns: nat
    var encoded: seq<Pcm>
    ghost var sent: seq<Message>

    ghost predicate Valid()
      reads this
    {
      config.Valid() && buffer.capacity == config.capacity && encoder.format == config.format
    }

    ghost function View(): Streamer
      reads this, buffer, liveDecoder, encoder
    {
      Streamer(status, fault, finished, buffer.frames, liveDecoder.View(), encoder.View(), encoded, rtpSenders,
               clockOffset, lastSyncRtp, firstPacketSent, currentTimestamp, packetsSent, underruns, sent)
    }

    constructor (config: Config, senders: seq<Sender>)
      requires config.Valid() && config.capacity == CapacityFrames(config.format, DEFAULT_BUFFER_CAPACITY_MS)
      ensures Valid() && this.config == config && View() == Start(config, senders)
      ensures fresh(buffer) && fresh(liveDecoder) && fresh(encoder)
    {
      this.config := config;
      buffer := new AudioBuffer(config.format, DEFAULT_BUFFER_CAPACITY_MS);
      liveDecoder := new LiveAudioDecoder(config.convert);
      encoder := new AlacEncoder(config.format);
      status, fault, finished, rtpSenders, clockOffset := Buffering, None, false, senders, None;
      lastSyncRtp, firstPacketSent, currentTimestamp, packetsSent, underruns := 0, false, 0, 0, 0;
      encoded, sent := [], [];
    }

    method DecodeBatch(rx: seq<Recv>) returns (overflow: bool)
      requires Valid()
      modifies buffer, liveDecoder
      ensures Batch(liveDecoder.View(), buffer.frames, overflow)
              == DecodeSome(DECODE_BATCH_LIMIT, old(liveDecoder.View()), old(buffer.frames), rx,
                            config.capacity, config.Target())
    {
      var rest, n: nat := rx, DECODE_BATCH_LIMIT;
      while n > 0
        invariant DecodeSome(DECODE_BATCH_LIMIT, old(liveDecoder.View()), old(buffer.frames), rx,
                             config.capacity, config.Target())
                  == DecodeSome(n, liveDecoder.View(), buffer.frames, rest, config.capacity, config.Target())
      {
        var frame;
        rest, frame := liveDecoder.DecodeResampled(rest, config.Target());
        if frame.None? {
          return false;
        }
        var ok := buffer.Push(frame.value);
        if !ok {
          return true;
        }
        n := n - 1;
      }
      overflow := false;
    }

    method RefillBufferIfNeeded(rx: seq<Recv>)
      requires Valid()
      modifies this`status, this`fault, this`finished, buffer, liveDecoder
      ensures Valid() && View() == Refill(config, old(View()), rx)
    {
      if FilledTo(|buffer.frames|, config.capacity, BUFFER_LOW_WATERMARK_PERCENT) {
        return;
      }
      var overflow := DecodeBatch(rx);
      if overflow {
        status, fault, finished := Error, Some(BufferOverflow), true;
      } else if liveDecoder.failed {
        status, fault, finished := Error, Some(Resampling), true;
      }
    }

    method BufferingAction() returns (action: Action)
      requires Valid()
      modifies this`status, this`finished
      ensures Valid() && action == Decide(config, old(View())) && View() == Decided(old(View()), action)
    {
      if status != Buffering {
        return Ready;
      }
      if FilledBeyond(|buffer.frames|, config.capacity, BUFFER_RESUME_FILL_PERCENT) {
        status := Streaming;
        return Ready;
      }
      if liveDecoder.eof && buffer.frames == [] {
        status, finished := Stopped, true;
        return Halt;
      }
      action := Wait;
    }

    static method PrepareAudio(senders: seq<Sender>, payloadType: byte, rtp: u32, payload: Bytes, marker: bool)
      returns (after: seq<Sender>, wires: Option<seq<Bytes>>)
      ensures Prepared(after, wires) == PrepareAll(senders, payloadType, rtp, payload, marker)
    {
      var done, packets := [], [];
      var i := 0;
      while i < |senders|
        invariant i <= |senders|
        invariant PrepareAll(senders[..i], payloadType, rtp, payload, marker) == Prepared(done, Some(packets))
      {
        PrepareOneMore(senders, payloadType, rtp, payload, marker, i);
        var (sender, wire) := Prepare(senders[i], payloadType, rtp, payload, marker);
        done := done + [sender];
        i := i + 1;
        if wire.None? {
          FailureLeavesTheRest(senders, payloadType, rtp, payload, marker, i);
          return done + senders[i..], None;
        }
        packets := packets + [wire.value];
      }
      assert senders[..i] == senders;
      after, wires := done, Some(packets);
    }

    method UpdateSentPacketState(rtp: u32, needSync: bool, nextTimestamp: nat)
      modifies this`lastSyncRtp, this`firstPacketSent, this`currentTimestamp, this`packetsSent
      ensures lastSyncRtp == if needSync then rtp else old(lastSyncRtp)
      ensures firstPacketSent && currentTimestamp == nextTimestamp && packetsSent == old(packetsSent) + 1
    {
      if needSync {
        lastSyncRtp := rtp;
      }
      firstPacketSent := true;
      currentTimestamp := nextTimestamp;
      packetsSent := packetsSent + 1;
    }

    method PreparePacket(packet: EncodedPacket, wallNs: u64) returns (o: Outgoing)
      requires Valid() && rtpSenders != []
      ensures o == Compose(config, View(), packet, wallNs)
    {
      var rtp: u32 := packet.timestamp % TWO_32;
      var marker := !firstPacketSent;
      var needSync := NeedSync(marker, lastSyncRtp, rtp, config.format.sampleRate);
      var renderNs := RenderTime(config, clockOffset, wallNs);
      var sync := SyncIf(needSync, config, rtpSenders[0], rtp, renderNs);
      var after, wires :=
        PrepareAudio(rtpSenders[0 := sync.sender], config.payloadType, rtp, config.codec(encoded), marker);
      o := Outgoing(rtp, renderNs, marker, needSync, sync.data, after, wires);
    }

    /** Records a prepared packet as sent, or the failure to prepare it. */
    method DispatchPacket(packet: EncodedPacket, o: Outgoing, delivered: bool)
      requires Valid()
      modifies this
      ensures Valid() && View() == Dispatch(old(View()), packet, o, delivered)
    {
      rtpSenders := o.senders;
      if o.wires.None? {
        status, fault, finished := Error, Some(Encryption), true;
        return;
      }
      UpdateSentPacketState(o.rtp, o.needSync, packet.timestamp + packet.frames);
      sent := sent + [Message(packet.timestamp, o.renderNs, o.marker, o.needSync, o.syncData, o.wires.value)];
      finished := !delivered;
    }

    /** Sends one encoded packet, preceded by a sync packet of the first sender when one is due. */
    method SendPacket(packet: EncodedPacket, wallNs: u64, delivered: bool)
      requires Valid() && rtpSenders != []
      modifies this
      ensures Valid() && View() == Transmit(config, old(View()), packet, wallNs, delivered)
    {
      var o := PreparePacket(packet, wallNs);
      DispatchPacket(packet, o, delivered);
    }

    method PlayOne(wallNs: u64, delivered: bool)
      requires Valid()
      modifies this, buffer, encoder
      ensures Valid() && View() == Play(config, old(View()), wallNs, delivered)
    {
      var found, frame := buffer.Pop();
      if !found {
        status, underruns := Buffering, underruns + 1;
        return;
      }
      var packet := encoder.EncodePacket(frame);
      encoded := encoded + [packet.pcm];
      if rtpSenders != [] {
        SendPacket(packet, wallNs, delivered);
      }
    }

    /** The test at the top of a turn; others may take the lock between it and the work. */
    method TestStatus() returns (proceed: bool)
      requires Valid()
      ensures proceed <==> !Over(View()) && status != Paused
    {
      proceed := !finished && status != Stopped && status != Error && status != Paused;
    }

    /** The work of a turn whose test said to proceed, whatever has been called since. */
    method Work(rx: seq<Recv>, latest: Option<ClockOffset>, wallNs: u64, delivered: bool)
      requires Valid() && !Over(View())
      modifies this, buffer, liveDecoder, encoder
      ensures Valid() && View() == Step(config, old(View()), Tick(rx, latest, wallNs, delivered, true))
    {
      if latest.Some? {
        clockOffset := latest;
      }
      RefillBufferIfNeeded(rx);
      if finished {
        return;
      }
      var action := BufferingAction();
      if action.Ready? {
        PlayOne(wallNs, delivered);
      }
    }

    /** A turn of the loop that nothing comes between. */
    method RunOnce(rx: seq<Recv>, latest: Option<ClockOffset>, wallNs: u64, delivered: bool)
      requires Valid()
      modifies this, buffer, liveDecoder, encoder
      ensures Valid() && View() == Step(config, old(View()), Tick(rx, latest, wallNs, delivered, false))
    {
      var proceed := TestStatus();
      if proceed {
        Work(rx, latest, wallNs, delivered);
      }
    }

    method PausePlayback()
      requires Valid()
      modifies this`status
      ensures Valid() && View() == Step(config, old(View()), Pause)
    {
      if status == Streaming {
        status := Paused;
      }
    }

    method ResumePlayback()
      requires Valid()
      modifies this`status
      ensures Valid() && View() == Step(config, old(View()), Resume)
    {
      if status == Paused {
        status := Streaming;
      }
    }

    method ResetAfterFlush()
      requires Valid()
      modifies this`firstPacketSent, this`rtpSenders
      ensures Valid() && View() == Step(config, old(View()), FlushReset)
    {
      firstPacketSent := false;
      rtpSenders := ResetAll(rtpSenders);
    }

    static method ResetAll(senders: seq<Sender>) returns (after: seq<Sender>)
      ensures after == ResetSenders(senders)
    {
      after := senders;
      var i := 0;
      while i < |senders|
        invariant i <= |senders| == |after| && after[i..] == senders[i..]
        invariant forall k :: 0 <= k < i ==> after[k] == ResetSync(senders[k])
      {
        after := after[i := ResetSync(after[i])];
        i := i + 1;
      }
    }
  }
}
