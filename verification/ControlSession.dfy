/** Pairing and the control channel together: the keys of a pairing open what the other end seals. */
module ControlSessions {
  import opened Wrappers
  import opened ByteStrings
  import opened Srp
  import opened ModArith
  import opened PairingSessions
  import opened ControlCiphers
  import opened RtspRequests
  import opened RtspReaders
  import opened RtspConnections
  import Sequences

  /** HKDF-SHA-512 with 32 bytes of output: input keying material, salt and info. */
  type Hkdf = (Bytes, Bytes, Bytes) -> Option<Bytes>

  /** The control keys of a shared secret: what is written first, what is read second. */
  function DeriveControlKeys(hkdf: Hkdf, secret: Bytes): Option<SessionKeys> {
    match hkdf(secret, Ascii("Control-Salt"), Ascii("Control-Write-Encryption-Key"))
    case None => None
    case Some(writeKey) =>
      match hkdf(secret, Ascii("Control-Salt"), Ascii("Control-Read-Encryption-Key"))
      case None => None
      case Some(readKey) => Some(SessionKeys(writeKey, readKey))
  }

  function ControlKeys(hkdf: Hkdf): KeyDerivation {
    secret => DeriveControlKeys(hkdf, secret)
  }

  /** An accessory's key: the directions are named from the controller's side. */
  function AccessoryKey(hkdf: Hkdf, secret: Bytes, reading: bool): Option<Bytes> {
    hkdf(secret, Ascii("Control-Salt"),
         Ascii(if reading then "Control-Write-Encryption-Key" else "Control-Read-Encryption-Key"))
  }

  /** Both ends of the channel understand each other, each with its own keys and from counter zero. */
  ghost predicate Understood(aead: Aead, keys: SessionKeys, theirRead: Bytes, theirWrite: Bytes,
                             plaintext: Bytes, block: Block, counter: nat)
  {
    && (Encrypt(aead, keys.writeKey, 0, plaintext).Ok? ==>
          var blocks := PeerRead(aead, theirRead, 0, Encrypt(aead, keys.writeKey, 0, plaintext).value);
          blocks.Some? && Join(blocks.value) == plaintext)
    && (PeerBlock(aead, theirWrite, counter, block).Some? ==>
          var sealed := PeerBlock(aead, theirWrite, counter, block).value[2..];
          DecryptBlock(aead, keys.readKey, counter, sealed, |block|) == Ok(block))
  }

  lemma EqualKeysUnderstand(aead: Aead, keys: SessionKeys, plaintext: Bytes, block: Block, counter: nat)
    requires Lawful(aead)
    ensures Understood(aead, keys, keys.writeKey, keys.readKey, plaintext, block, counter)
  {
    if Encrypt(aead, keys.writeKey, 0, plaintext).Ok? {
      PeerReadsEncrypted(aead, keys.writeKey, 0, plaintext);
    }
    if PeerBlock(aead, keys.readKey, counter, block).Some? {
      var wire := PeerBlock(aead, keys.readKey, counter, block).value;
      PeerBlockOpens(aead, keys.readKey, counter, block, []);
      assert wire + [] == wire && |wire| == |block| + 18 && wire[2..|block| + 18] == wire[2..];
    }
  }

  /**
   * After an honest pairing the control channel works in both directions: the accessory derives its keys
   * from its own SRP secret, and reads what this end encrypts and is read by it.
   */
  lemma ChannelAfterPairing(hash: Hash, hkdf: Hkdf, params: SrpParams, pin: Bytes, a: nat, salt: Bytes, b: nat,
                            publicKey: Bytes, aead: Aead, plaintext: Bytes, block: Block, counter: nat)
    requires Lawful(aead)
    requires HonestSetting(hash, Enrol(hash, params, Ascii("Pair-Setup"), pin, salt, b), publicKey, a)
    ensures
      var server := Enrol(hash, params, Ascii("Pair-Setup"), pin, salt, b);
      var w := World(params, PairSetups.SrpWith(hash), ControlKeys(hkdf));
      var secret := ServerSessionKey(hash, server, ModPow(params.g, a, params.n));
      var keys := PairWith(w, pin, a, SrpAccessory(hash, server, publicKey)).keys;
      var theirRead, theirWrite := AccessoryKey(hkdf, secret, true), AccessoryKey(hkdf, secret, false);
      && (keys.Some? <==> theirRead.Some? && theirWrite.Some?)
      && (keys.Some? ==>
            Understood(aead, keys.value, theirRead.value, theirWrite.value, plaintext, block, counter))
  {
    var server := Enrol(hash, params, Ascii("Pair-Setup"), pin, salt, b);
    var w := World(params, PairSetups.SrpWith(hash), ControlKeys(hkdf));
    HonestPairing(hash, ControlKeys(hkdf), params, pin, a, salt, b, publicKey);
    var secret := ServerSessionKey(hash, server, ModPow(params.g, a, params.n));
    var keys := DeriveControlKeys(hkdf, secret);
    assert PairWith(w, pin, a, SrpAccessory(hash, server, publicKey)).keys == keys;
    if keys.Some? {
      EqualKeysUnderstand(aead, keys.value, plaintext, block, counter);
    }
  }

  // ----- Runs of requests -----

  /** The requests of a run with their numbers. */
  function Numbers(requests: seq<RtspRequest>, cseq: nat): seq<Numbered> {
    seq(|requests|, k requires 0 <= k < |requests| => Numbered(requests[k], cseq + k))
  }

  ghost predicate AllLegible(requests: seq<RtspRequest>) {
    forall k :: 0 <= k < |requests| ==> Legible(requests[k])
  }

  /** Whatever follows it and whatever its number, the reader returns this request. */
  ghost predicate ReadsBack(read: RequestReader, printed: (RtspRequest, nat) -> Bytes, r: RtspRequest) {
    forall cseq: nat, rest: Bytes :: read(printed(r, cseq) + rest) == Some((Numbered(r, cseq), rest))
  }

  function PrintedBy(printed: (RtspRequest, nat) -> Bytes, requests: seq<RtspRequest>, cseq: nat): seq<Bytes> {
    seq(|requests|, k requires 0 <= k < |requests| => printed(requests[k], cseq + k))
  }

  lemma OneMoreRead(read: RequestReader, data: Bytes, n: nat, first: Numbered, after: Bytes, others: seq<Numbered>,
                    rest: Bytes)
    requires n > 0 && read(data) == Some((first, after)) && ReadRequests(read, after, n - 1) == Some((others, rest))
    ensures ReadRequests(read, data, n) == Some(([first] + others, rest))
  {}

  lemma NumbersCons(requests: seq<RtspRequest>, cseq: nat)
    requires requests != []
    ensures [Numbered(requests[0], cseq)] + Numbers(requests[1..], cseq + 1) == Numbers(requests, cseq)
  {}

  lemma PrintedCons(printed: (RtspRequest, nat) -> Bytes, requests: seq<RtspRequest>, cseq: nat, rest: Bytes)
    requires requests != []
    ensures Join(PrintedBy(printed, requests, cseq)) + rest
            == printed(requests[0], cseq) + (Join(PrintedBy(printed, requests[1..], cseq + 1)) + rest)
  {
    assert PrintedBy(printed, requests, cseq)[1..] == PrintedBy(printed, requests[1..], cseq + 1);
    Sequences.Associative(printed(requests[0], cseq), Join(PrintedBy(printed, requests[1..], cseq + 1)), rest);
  }

  lemma {:induction false} RunReadsBack(read: RequestReader, printed: (RtspRequest, nat) -> Bytes,
                                        requests: seq<RtspRequest>, cseq: nat, rest: Bytes)
    requires forall k :: 0 <= k < |requests| ==> ReadsBack(read, printed, requests[k])
    ensures ReadRequests(read, Join(PrintedBy(printed, requests, cseq)) + rest, |requests|)
            == Some((Numbers(requests, cseq), rest))
    decreases |requests|
  {
    if requests == [] {
      assert [] + rest == rest && Numbers(requests, cseq) == [];
    } else {
      var after := Join(PrintedBy(printed, requests[1..], cseq + 1)) + rest;
      var first := printed(requests[0], cseq);
      PrintedCons(printed, requests, cseq, rest);
      assert ReadsBack(read, printed, requests[0]);
      assert read(first + after) == Some((Numbered(requests[0], cseq), after));
      RunReadsBack(read, printed, requests[1..], cseq + 1, rest);
      OneMoreRead(read, first + after, |requests|, Numbered(requests[0], cseq), after,
                  Numbers(requests[1..], cseq + 1), rest);
      NumbersCons(requests, cseq);
    }
  }

  /** A run of printed requests is read back one by one, each with its number. */
  lemma RequestsRoundTrip(requests: seq<RtspRequest>, cseq: nat, rest: Bytes)
    requires AllLegible(requests)
    ensures ReadRequests(ReadRequest, Join(Printed(requests, cseq)) + rest, |requests|)
            == Some((Numbers(requests, cseq), rest))
  {
    forall k | 0 <= k < |requests|
      ensures ReadsBack(ReadRequest, Serialized, requests[k])
    {
      forall number: nat, more: Bytes
        ensures ReadRequest(Serialized(requests[k], number) + more) == Some((Numbered(requests[k], number), more))
      {
        RequestRoundTrip(requests[k], number, more);
      }
    }
    RunReadsBack(ReadRequest, Serialized, requests, cseq, rest);
    assert PrintedBy(Serialized, requests, cseq) == Printed(requests, cseq);
  }

  lemma {:induction false} JoinConcat(blocks: seq<Bytes>, more: seq<Bytes>)
    ensures Join(blocks + more) == Join(blocks) + Join(more)
  {
    if blocks == [] {
      assert blocks + more == more;
    } else {
      assert (blocks + more)[1..] == blocks[1..] + more;
      JoinConcat(blocks[1..], more);
    }
  }

  lemma JoinPrepended(blocks: seq<Bytes>, more: Option<seq<Bytes>>)
    requires more.Some?
    ensures Prepend(blocks, more).Some? && Join(Prepend(blocks, more).value) == Join(blocks) + Join(more.value)
  {
    JoinConcat(blocks, more.value);
  }

  lemma ChunksAreRead(aead: Aead, key: Bytes, counter: nat, msg: Bytes, rest: Bytes)
    requires Lawful(aead) && Encrypt(aead, key, counter, msg).Ok?
    ensures PeerRead(aead, key, counter, Encrypt(aead, key, counter, msg).value + rest)
            == Prepend(Chunks(msg), PeerRead(aead, key, counter + |Chunks(msg)|, rest))
  {
    ChunksJoin(msg);
    PeerReadsBlocks(aead, key, counter, Chunks(msg), rest);
  }

  lemma ReadsOne(aead: Aead, key: Bytes, counter: nat, msg: Bytes, rest: Bytes, after: seq<Bytes>)
    requires Lawful(aead) && Encrypt(aead, key, counter, msg).Ok?
    requires PeerRead(aead, key, counter + |Chunks(msg)|, rest) == Some(after)
    ensures
      var blocks := PeerRead(aead, key, counter, Encrypt(aead, key, counter, msg).value + rest);
      blocks.Some? && Join(blocks.value) == msg + Join(after)
  {
    ChunksAreRead(aead, key, counter, msg, rest);
    JoinPrepended(Chunks(msg), Some(after));
    ChunksJoin(msg);
  }

  /** Whatever is read after it, the message is read before that. */
  ghost predicate Carries(seal: Sealer, read: (nat, Bytes) -> Option<seq<Bytes>>, msg: Bytes) {
    forall counter: nat, rest: Bytes ::
      seal(counter, msg).Some? && read(seal(counter, msg).value.counter, rest).Some? ==>
        var blocks := read(counter, seal(counter, msg).value.wire + rest);
        blocks.Some?
        && Join(blocks.value) == msg + Join(read(seal(counter, msg).value.counter, rest).value)
  }

  lemma {:induction false} RunCarried(seal: Sealer, read: (nat, Bytes) -> Option<seq<Bytes>>, counter: nat,
                                      msgs: seq<Bytes>)
    requires forall k :: 0 <= k < |msgs| ==> Carries(seal, read, msgs[k])
    requires (forall c: nat :: read(c, []) == Some([])) && SendAll(seal, counter, msgs).Some?
    ensures
      var blocks := read(counter, SendAll(seal, counter, msgs).value.wire);
      blocks.Some? && Join(blocks.value) == Join(msgs)
    decreases |msgs|
  {
    if msgs != [] {
      assert Carries(seal, read, msgs[0]);
      RunCarried(seal, read, seal(counter, msgs[0]).value.counter, msgs[1..]);
    }
  }

  lemma EachCarried(aead: Aead, key: Bytes, msg: Bytes)
    requires Lawful(aead)
    ensures Carries(SealWith(aead, key), PeerReading(aead, key), msg)
  {
    forall counter: nat, rest: Bytes |
      Encrypt(aead, key, counter, msg).Ok? && PeerRead(aead, key, counter + |Chunks(msg)|, rest).Some?
      ensures
        var blocks := PeerRead(aead, key, counter, Encrypt(aead, key, counter, msg).value + rest);
        blocks.Some?
        && Join(blocks.value) == msg + Join(PeerRead(aead, key, counter + |Chunks(msg)|, rest).value)
    {
      ReadsOne(aead, key, counter, msg, rest, PeerRead(aead, key, counter + |Chunks(msg)|, rest).value);
    }
  }

  /** The accessory gets every byte of a run of messages, in order. */
  lemma PeerReadsRun(aead: Aead, key: Bytes, counter: nat, msgs: seq<Bytes>)
    requires Lawful(aead) && SendAll(SealWith(aead, key), counter, msgs).Some?
    ensures
      var blocks := PeerRead(aead, key, counter, SendAll(SealWith(aead, key), counter, msgs).value.wire);
      blocks.Some? && Join(blocks.value) == Join(msgs)
  {
    forall k | 0 <= k < |msgs|
      ensures Carries(SealWith(aead, key), PeerReading(aead, key), msgs[k])
    {
      EachCarried(aead, key, msgs[k]);
    }
    RunCarried(SealWith(aead, key), PeerReading(aead, key), counter, msgs);
  }

  /** An accessory that decrypts a run of requests reads each of them, number, headers and body. */
  lemma AccessoryReadsRequests(aead: Aead, key: Bytes, counter: nat, requests: seq<RtspRequest>, cseq: nat)
    requires Lawful(aead) && AllLegible(requests)
    requires SendAll(SealWith(aead, key), counter, Printed(requests, cseq)).Some?
    ensures
      var wire := SendAll(SealWith(aead, key), counter, Printed(requests, cseq)).value.wire;
      var blocks := PeerRead(aead, key, counter, wire);
      && blocks.Some?
      && ReadRequests(ReadRequest, Join(blocks.value), |requests|) == Some((Numbers(requests, cseq), []))
  {
    var msgs := Printed(requests, cseq);
    PeerReadsRun(aead, key, counter, msgs);
    RequestsRoundTrip(requests, cseq, []);
    assert Join(msgs) + [] == Join(msgs);
  }
}
