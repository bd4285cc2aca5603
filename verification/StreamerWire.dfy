/** What a receiver sees of a run: the bytes of every wire packet. */
module StreamerWire {
  import opened Wrappers
  import opened ByteStrings
  import opened RtpPackets
  import opened RtpSenders
  import opened ControlCiphers
  import opened AudioBuffers
  import opened StreamerRuns
  import opened Streamers

  /** The numbers of messages that had been sent when each of the flushes came. */
  function FlushPoints(c: Config, start: Streamer, ops: seq<Op>): set<nat>
    requires c.Valid()
  {
    if ops == [] then {}
    else
      var front := ops[..|ops| - 1];
      FlushPoints(c, start, front) + if ops[|ops| - 1].FlushReset? then {|Run(c, start, front).sent|} else {}
  }

  /** Message n is the first one of the stream, or the first one after a flush. */
  predicate OpensStream(flushes: set<nat>, n: nat) {
    n == 0 || n in flushes
  }

  ghost predicate Marked(flushes: set<nat>, sent: seq<Message>) {
    forall n :: 0 <= n < |sent| ==> (sent[n].marker <==> OpensStream(flushes, n))
  }

  ghost predicate Stamped(framesPerPacket: nat, sent: seq<Message>) {
    forall n :: 0 <= n < |sent| ==> sent[n].timestamp == n * framesPerPacket
  }

  /** The next packet will open the stream exactly when it is due to; the counters agree with what was sent. */
  ghost predicate Follows(c: Config, flushes: set<nat>, s: Streamer) {
    && s.senders != []
    && (!s.firstPacketSent <==> OpensStream(flushes, |s.sent|))
    && (forall f :: f in flushes ==> f <= |s.sent|)
    && Marked(flushes, s.sent) && Stamped(c.format.framesPerPacket, s.sent)
    && s.packetsSent == |s.sent|
    && (s.status != Error ==> |s.encoded| == |s.sent| && s.currentTimestamp == s.encoder.timestamp)
  }

  lemma AppendMarked(flushes: set<nat>, sent: seq<Message>, m: Message, framesPerPacket: nat)
    requires Marked(flushes, sent) && (m.marker <==> OpensStream(flushes, |sent|))
    requires Stamped(framesPerPacket, sent) && m.timestamp == |sent| * framesPerPacket
    ensures Marked(flushes, sent + [m]) && Stamped(framesPerPacket, sent + [m])
  {}

  lemma FollowsAfterSend(c: Config, flushes: set<nat>, s: Streamer, t: Streamer)
    requires Follows(c, flushes, s) && Sends(c, s, t)
    requires s.encoder.timestamp == |s.encoded| * c.format.framesPerPacket
    ensures Follows(c, flushes, t)
  {
    var m := t.sent[|s.sent|];
    AppendMarked(flushes, s.sent, m, c.format.framesPerPacket);
    assert t.sent == s.sent + [m];
    assert |t.sent| !in flushes;
  }

  lemma FollowsAfterFlush(c: Config, flushes: set<nat>, s: Streamer)
    requires c.Valid() && Follows(c, flushes, s)
    ensures Follows(c, flushes + {|s.sent|}, Step(c, s, FlushReset))
  {}

  lemma FollowsAfterStep(c: Config, flushes: set<nat>, s: Streamer, op: Op)
    requires c.Valid() && Follows(c, flushes, s) && !op.FlushReset?
    requires s.encoder.timestamp == |s.encoded| * c.format.framesPerPacket
    ensures Follows(c, flushes, Step(c, s, op))
  {
    var t := Step(c, s, op);
    StepKind(c, s, op);
    if Sends(c, s, t) { FollowsAfterSend(c, flushes, s, t); }
  }

  lemma {:induction false} FollowsInRun(c: Config, senders: seq<Sender>, ops: seq<Op>)
    requires c.Valid() && senders != []
    ensures Follows(c, FlushPoints(c, Start(c, senders), ops), Run(c, Start(c, senders), ops))
  {
    if ops != [] {
      var start, front, op := Start(c, senders), ops[..|ops| - 1], ops[|ops| - 1];
      var flushes := FlushPoints(c, start, front);
      FollowsInRun(c, senders, front);
      RunAccounts(c, start, front);
      RunSnoc(c, start, ops);
      if op.FlushReset? {
        FollowsAfterFlush(c, flushes, Run(c, start, front));
      } else {
        FollowsAfterStep(c, flushes, Run(c, start, front), op);
        assert flushes + {} == flushes;
      }
    }
  }

  lemma BytesAsWired(c: Config, start: Sender, encoded: seq<Pcm>, m: Message, n: nat, k: nat)
    requires WiredBy(c, start, encoded, m, n, k)
    ensures HeaderBytes(m.wirePackets[k], m.marker, c.payloadType, (|start.log| + n) % 65536,
                        m.timestamp % 0x1_0000_0000, start.ssrc)
    ensures start.cipher.None? ==> m.wirePackets[k][12..] == c.codec(encoded[..n + 1])
  {
    WirePacketBytes(start.cipher, start.ssrc, (|start.log| + n) % TWO_16, c.payloadType, m.timestamp % TWO_32,
                    c.codec(encoded[..n + 1]), m.marker, m.wirePackets[k]);
  }

  /**
   * In every run, byte for byte: wire packet n of sender k is an RTP packet of version 2 with the n-th number
   * and timestamp, and with the marker bit in exactly the first packet of the run and the first after a flush;
   * without a cipher its payload follows in the clear.
   */
  lemma WireOfRun(c: Config, senders: seq<Sender>, ops: seq<Op>, k: nat, n: nat)
    requires c.Valid() && k < |senders| && n < |Run(c, Start(c, senders), ops).sent|
    ensures
      var s, start := Run(c, Start(c, senders), ops), senders[k];
      k < |s.sent[n].wirePackets| && n < |s.encoded| &&
      var wire := s.sent[n].wirePackets[k];
      && HeaderBytes(wire, OpensStream(FlushPoints(c, Start(c, senders), ops), n), c.payloadType,
                     (|start.log| + n) % 65536, n * c.format.framesPerPacket % 0x1_0000_0000, start.ssrc)
      && (start.cipher.None? ==> wire[12..] == c.codec(s.encoded[..n + 1]))
  {
    var s, start := Run(c, Start(c, senders), ops), senders[k];
    PacketsAsNumbered(c, senders, ops, k, n);
    FollowsInRun(c, senders, ops);
    BytesAsWired(c, start, s.encoded, s.sent[n], n, k);
  }

  lemma OpensAsWired(c: Config, start: Sender, encoded: seq<Pcm>, m: Message, n: nat, k: nat, aead: Aead, key: Bytes)
    requires WiredBy(c, start, encoded, m, n, k)
    requires Lawful(aead) && start.cipher == Some(AudioCipher(aead, key))
    ensures OpenWirePacket(aead, key, m.wirePackets[k]) == Some(c.codec(encoded[..n + 1]))
  {
    SealedOpens(aead, key, start.ssrc, (|start.log| + n) % TWO_16, c.payloadType, m.timestamp % TWO_32,
                c.codec(encoded[..n + 1]), m.marker, m.wirePackets[k]);
  }

  /** And with a cipher, a receiver that has the key opens it to that payload. */
  lemma EncryptedWireOfRun(c: Config, senders: seq<Sender>, ops: seq<Op>, k: nat, n: nat, aead: Aead, key: Bytes)
    requires c.Valid() && k < |senders| && n < |Run(c, Start(c, senders), ops).sent|
    requires Lawful(aead) && senders[k].cipher == Some(AudioCipher(aead, key))
    ensures
      var s := Run(c, Start(c, senders), ops);
      k < |s.sent[n].wirePackets| && n < |s.encoded|
      && OpenWirePacket(aead, key, s.sent[n].wirePackets[k]) == Some(c.codec(s.encoded[..n + 1]))
  {
    var s := Run(c, Start(c, senders), ops);
    PacketsAsNumbered(c, senders, ops, k, n);
    OpensAsWired(c, senders[k], s.encoded, s.sent[n], n, k, aead, key);
  }

  lemma SealedOpens(aead: Aead, key: Bytes, ssrc: u32, sequence: u16, payloadType: byte, timestamp: u32,
                    payload: Bytes, marker: bool, wire: Bytes)
    requires Lawful(aead)
    requires WirePacket(Some(AudioCipher(aead, key)), ssrc, sequence, payloadType, timestamp, payload, marker)
             == Some(wire)
    ensures OpenWirePacket(aead, key, wire) == Some(payload)
  {
    WirePacketOpens(aead, key, ssrc, sequence, payloadType, timestamp, payload, marker);
  }

  /** In every run the counters are those of what was sent, and the timestamp the one of the next packet. */
  lemma CountersOfRun(c: Config, senders: seq<Sender>, ops: seq<Op>)
    requires c.Valid() && senders != []
    ensures
      var s := Run(c, Start(c, senders), ops);
      && s.packetsSent == |s.sent|
      && (s.status != Error ==> s.currentTimestamp == |s.sent| * c.format.framesPerPacket)
  {
    FollowsInRun(c, senders, ops);
    RunAccounts(c, Start(c, senders), ops);
  }
}
