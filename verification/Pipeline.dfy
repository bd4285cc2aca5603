/** From the streamer to the sockets: what a receiver gets is what its sender has logged. */
module Pipelines {
  import opened Wrappers
  import opened ByteStrings
  import opened AudioBuffers
  import opened ControlCiphers
  import opened RtpSenders
  import opened Streamers
  import opened StreamerRuns
  import Clocks
  import Ptp
  import SenderThreads
  import StreamerSync

  /** What the streamer puts on the channel for a message. */
  function PacketOf(m: Message): SenderThreads.Packet {
    SenderThreads.Packet(m.wirePackets, m.syncData)
  }

  function PacketsOf(sent: seq<Message>): seq<SenderThreads.Packet> {
    seq(|sent|, i requires 0 <= i < |sent| => PacketOf(sent[i]))
  }

  lemma {:induction false} SharesConcat(
    target: nat, front: seq<SenderThreads.Packet>, rest: seq<SenderThreads.Packet>)
    ensures SenderThreads.SharesOf(target, false, front + rest)
            == SenderThreads.SharesOf(target, false, front) + SenderThreads.SharesOf(target, false, rest)
    decreases |rest|
  {
    if rest == [] {
      assert front + rest == front;
    } else {
      assert (front + rest)[..|front + rest| - 1] == front + rest[..|rest| - 1];
      SharesConcat(target, front, rest[..|rest| - 1]);
    }
  }

  lemma {:induction false} SharesBound(target: nat, packets: seq<SenderThreads.Packet>)
    ensures |SenderThreads.SharesOf(target, false, packets)| <= |packets|
  {
    if packets != [] { SharesBound(target, packets[..|packets| - 1]); }
  }

  /** The wire packets of the first m messages are the log's entries for them. */
  lemma {:induction false} WiresAreLogged(start: Sender, now: Sender, sent: seq<Message>, k: nat, m: nat)
    requires Logged(start, now, sent, k) && m <= |sent|
    ensures SenderThreads.SharesOf(k, false, PacketsOf(sent[..m])) == now.log[|start.log|..|start.log| + m]
  {
    if m > 0 {
      WiresAreLogged(start, now, sent, k, m - 1);
      assert PacketsOf(sent[..m])[..m - 1] == PacketsOf(sent[..m - 1]);
      assert now.log[|start.log|..|start.log| + m]
          == now.log[|start.log|..|start.log| + m - 1] + [now.log[|start.log| + m - 1]];
    }
  }

  /** The wire packets sent to a target, then those pending for it, are its sender's log entries of the first
      m messages. */
  ghost predicate Carried(thread: SenderThreads.State, targets: nat, start: Sender, now: Sender, k: nat, m: nat) {
    && |start.log| + m <= |now.log|
    && SenderThreads.DataFor(k, false, SenderThreads.AllSends(targets, thread.flushed))
       + SenderThreads.SharesOf(k, false, thread.buffer)
       == now.log[|start.log|..|start.log| + m]
  }

  /** What was sent to a target and what is pending for it are its shares of the packets heard. */
  lemma HeardIsCarried(cfg: SenderThreads.Config, t0: nat, inputs: seq<SenderThreads.Input>, k: nat)
    requires k < cfg.targets
    ensures
      var thread := SenderThreads.Run(cfg, t0, inputs);
      && SenderThreads.DataFor(k, false, SenderThreads.AllSends(cfg.targets, thread.flushed))
         + SenderThreads.SharesOf(k, false, thread.buffer)
         == SenderThreads.SharesOf(k, false, SenderThreads.HeardPackets(inputs))
      && |thread.buffer| < cfg.Size()
  {
    var thread := SenderThreads.Run(cfg, t0, inputs);
    SenderThreads.Conservation(cfg, t0, inputs);
    SenderThreads.EachTargetGetsItsOwn(k, false, cfg.targets, thread.flushed);
    SharesConcat(k, thread.flushed, thread.buffer);
  }

  lemma CarriedIffLive(cfg: SenderThreads.Config, t0: nat, inputs: seq<SenderThreads.Input>,
                       start: Sender, now: Sender, sent: seq<Message>, k: nat, m: nat)
    requires Logged(start, now, sent, k) && m <= |sent| && k < cfg.targets
    requires SenderThreads.Arrivals(inputs) == PacketsOf(sent[..m])
    ensures Carried(SenderThreads.Run(cfg, t0, inputs), cfg.targets, start, now, k, m)
            <==> SenderThreads.AllFindItLive(inputs)
    ensures |SenderThreads.Run(cfg, t0, inputs).buffer| < cfg.Size()
  {
    HeardIsCarried(cfg, t0, inputs, k);
    SharesBound(k, SenderThreads.HeardPackets(inputs));
    SenderThreads.HeardIffLive(inputs);
    WiresAreLogged(start, now, sent, k, m);
  }

  /**
   * In every run of the streamer and of the sender thread at which the first m messages have arrived: each
   * receiver has got exactly its own sender's numbered packets, in order and without gaps, up to fewer than a
   * burst still pending, if and only if none of them arrived in a pause or after the end. A message that a
   * Pause overtook on the channel is dropped, though numbered and logged.
   */
  lemma SocketsGetTheLog(c: Config, senders: seq<Sender>, ops: seq<Op>, cfg: SenderThreads.Config, t0: nat,
                         inputs: seq<SenderThreads.Input>, k: nat, m: nat)
    requires c.Valid() && k < |senders| && k < cfg.targets
    requires m <= |Run(c, Start(c, senders), ops).sent|
    requires SenderThreads.Arrivals(inputs) == PacketsOf(Run(c, Start(c, senders), ops).sent[..m])
    ensures k < |Run(c, Start(c, senders), ops).senders|
    ensures Carried(SenderThreads.Run(cfg, t0, inputs), cfg.targets, senders[k],
                    Run(c, Start(c, senders), ops).senders[k], k, m)
            <==> SenderThreads.AllFindItLive(inputs)
    ensures |SenderThreads.Run(cfg, t0, inputs).buffer| < cfg.Size()
  {
    var s := Run(c, Start(c, senders), ops);
    WiredAfterRun(c, senders[k], k, Start(c, senders), ops);
    CarriedIffLive(cfg, t0, inputs, senders[k], s.senders[k], s.sent, k, m);
  }

  /** And such inputs there are: the first message of any run is lost if a pause overtakes it. */
  lemma OvertakenIsLost(cfg: SenderThreads.Config, t0: nat, start: Sender, now: Sender, sent: seq<Message>, k: nat)
    returns (inputs: seq<SenderThreads.Input>)
    requires Logged(start, now, sent, k) && sent != [] && k < cfg.targets
    ensures SenderThreads.Arrivals(inputs) == PacketsOf(sent[..1])
    ensures !Carried(SenderThreads.Run(cfg, t0, inputs), cfg.targets, start, now, k, 1)
  {
    var pause := SenderThreads.Input(SenderThreads.Pause, t0, t0, t0);
    var arrival := SenderThreads.Input(SenderThreads.Arrived(PacketOf(sent[0])), t0, t0, t0);
    inputs := [pause, arrival];
    assert inputs[..1] == [pause] && [pause][..0] == [];
    assert SenderThreads.Arrivals([pause]) == [];
    assert SenderThreads.Arrivals(inputs) == PacketsOf(sent[..1]);
    assert SenderThreads.ModeAfter([pause]) == SenderThreads.Held;
    CarriedIffLive(cfg, t0, inputs, start, now, sent, k, 1);
  }

  // ----- Packet nonces -----

  /** The short nonce of the n-th packet of a sender that had sent `base` packets before. */
  function NthNonce(base: nat, n: nat): Bytes {
    AudioNonce((base + n) % TWO_16)[4..]
  }

  lemma SameSequence(base: nat, i: nat, j: nat)
    ensures (base + i) % TWO_16 == (base + j) % TWO_16 <==> (i - j) % TWO_16 == 0
  {}

  lemma SameNonce(base: nat, i: nat, j: nat)
    ensures NthNonce(base, i) == NthNonce(base, j) <==> (i - j) % TWO_16 == 0
  {
    AudioNonceInjective((base + i) % TWO_16, (base + j) % TWO_16);
    SameSequence(base, i, j);
  }

  lemma MessageNonce(c: Config, start: Sender, encoded: seq<Pcm>, m: Message, n: nat, k: nat, aead: Aead, key: Bytes)
    requires WiredBy(c, start, encoded, m, n, k) && start.cipher == Some(AudioCipher(aead, key))
    ensures WireNonce(m.wirePackets[k]) == NthNonce(|start.log|, n)
  {
    WireNonceIs(aead, key, start.ssrc, (|start.log| + n) % TWO_16, c.payloadType, m.timestamp % TWO_32,
                c.codec(encoded[..n + 1]), m.marker, m.wirePackets[k]);
  }

  /** Messages i and j carry the same nonce for sender k exactly if they are a multiple of 65536 apart. */
  ghost predicate NoncesRepeat(sent: seq<Message>, k: nat, i: nat, j: nat) {
    && i < |sent| && j < |sent| && k < |sent[i].wirePackets| && k < |sent[j].wirePackets|
    && (WireNonce(sent[i].wirePackets[k]) == WireNonce(sent[j].wirePackets[k]) <==> (i - j) % TWO_16 == 0)
  }

  lemma WiredNonces(c: Config, start: Sender, s: Streamer, k: nat, i: nat, j: nat, aead: Aead, key: Bytes)
    requires AllWired(c, start, s.encoded, s.sent, k) && start.cipher == Some(AudioCipher(aead, key))
    requires i < |s.sent| && j < |s.sent|
    ensures NoncesRepeat(s.sent, k, i, j)
  {
    MessageNonce(c, start, s.encoded, s.sent[i], i, k, aead, key);
    MessageNonce(c, start, s.encoded, s.sent[j], j, k, aead, key);
    SameNonce(|start.log|, i, j);
  }

  /** In every run the packets of an encrypting sender repeat a nonce every 65536 messages, and never sooner. */
  lemma NoncesRepeatIff(c: Config, senders: seq<Sender>, ops: seq<Op>, k: nat, i: nat, j: nat, aead: Aead, key: Bytes)
    requires c.Valid() && k < |senders| && senders[k].cipher == Some(AudioCipher(aead, key))
    requires i < |Run(c, Start(c, senders), ops).sent| && j < |Run(c, Start(c, senders), ops).sent|
    ensures NoncesRepeat(Run(c, Start(c, senders), ops).sent, k, i, j)
  {
    WiredAfterRun(c, senders[k], k, Start(c, senders), ops);
    WiredNonces(c, senders[k], Run(c, Start(c, senders), ops), k, i, j, aead, key);
  }

  // ----- The moment stamped in a sync packet -----

  lemma SameDelay(x: u64, y: u64, delay: u64)
    ensures (x + delay) % TWO_64 == (y + delay) % TWO_64 <==> x == y
  {}

  /** A time rendered by a published offset is the master's, plus the delay, exactly when lead and offset cancel. */
  lemma RendersMasterTimeIff(c: Config, masterNs: u64, theta: int, d1: nat, d2: nat, t1: Ptp.PtpTimestamp,
                             t2: Ptp.PtpTimestamp, t3: Ptp.PtpTimestamp, t4: Ptp.PtpTimestamp)
    requires Ptp.Exchange(theta, d1, d2, t1, t2, t3, t4) && 0 <= masterNs + theta < TWO_64
    ensures RenderTime(c, Some(Ptp.Offset(t1, t2, t3, t4)), masterNs + theta)
            == (masterNs + c.renderDelayNs) % TWO_64
            <==> (theta + Ptp.HalfTowardsZero(2 * theta + (d1 - d2))) % TWO_64 == 0
  {
    Ptp.AddingTheOffset(masterNs, theta, d1, d2, t1, t2, t3, t4);
    SameDelay(Clocks.ApplyOffset(masterNs + theta, Ptp.Offset(t1, t2, t3, t4)), masterNs, c.renderDelayNs);
  }

  lemma TurnRenders(c: Config, start: Streamer, ops: seq<Op>, m: Message, j: nat, i: nat,
                    offset: Option<Clocks.ClockOffset>)
    requires c.Valid() && StreamerSync.RenderedBy(c, start, ops, m, j, i)
    requires StreamerSync.LatestOffset(c, start, ops[..i + 1]) == offset
    ensures m.renderNs == RenderTime(c, offset, ops[i].wallNs)
  {
    StreamerSync.TurnTimeIs(c, start, ops, i, offset);
  }

  /** What a turn does with the latest offset, when that is one the slave has published. */
  ghost predicate Synchronised(c: Config, start: Streamer, ops: seq<Op>, i: nat, masterNs: u64, theta: int,
                               offset: Clocks.ClockOffset)
    requires c.Valid() && i < |ops| && ops[i].Tick?
  {
    StreamerSync.LatestOffset(c, start, ops[..i + 1]) == Some(offset) && ops[i].wallNs == masterNs + theta
  }

  /**
   * From the PTP exchange to the sync packet: with a clock `theta` ahead of the master's, a message sent under
   * an offset that the slave has published from legs of d1 and d2 is stamped with the master's time plus the
   * render delay exactly when lead and offset cancel.
   */
  lemma StampedOnMasterTimeIff(c: Config, start: Streamer, ops: seq<Op>, m: Message, j: nat, i: nat, masterNs: u64,
                               theta: int, d1: nat, d2: nat, t1: Ptp.PtpTimestamp, t2: Ptp.PtpTimestamp,
                               t3: Ptp.PtpTimestamp, t4: Ptp.PtpTimestamp)
    requires c.Valid() && StreamerSync.RenderedBy(c, start, ops, m, j, i)
    requires Synchronised(c, start, ops, i, masterNs, theta, Ptp.Offset(t1, t2, t3, t4))
    requires Ptp.Exchange(theta, d1, d2, t1, t2, t3, t4)
    ensures m.renderNs == (masterNs + c.renderDelayNs) % TWO_64
            <==> (theta + Ptp.HalfTowardsZero(2 * theta + (d1 - d2))) % TWO_64 == 0
  {
    TurnRenders(c, start, ops, m, j, i, Some(Ptp.Offset(t1, t2, t3, t4)));
    RendersMasterTimeIff(c, masterNs, theta, d1, d2, t1, t2, t3, t4);
  }
}
