/** The encrypted control channel: length-prefixed AEAD blocks under counter nonces. */
module ControlCiphers {
  import opened Wrappers
  import opened ByteStrings
  import opened RtpPackets
  import RtpSenders

  const MAX_BLOCK: nat := 0x400
  const TAG_LENGTH: nat := 16

  /** An authenticated cipher: key, nonce, associated data and text. */
  datatype Aead = Aead(
    seal: (Bytes, Bytes, Bytes, Bytes) -> Option<Bytes>,
    open: (Bytes, Bytes, Bytes, Bytes) -> Option<Bytes>)

  /** Opening undoes sealing under the same key, nonce and associated data; the tag adds 16 bytes. */
  ghost predicate Lawful(aead: Aead) {
    forall key, nonce, aad, text ::
      aead.seal(key, nonce, aad, text).Some? ==>
        var sealed := aead.seal(key, nonce, aad, text).value;
        |sealed| == |text| + TAG_LENGTH && aead.open(key, nonce, aad, sealed) == Some(text)
  }

  datatype CipherError = EmptyPlaintext | EncryptionFailed | BlockTooShort | DecryptionFailed

  /** Four zero bytes and the counter, as section 2.8 of RFC 8439 allows. */
  function CounterNonce(counter: nat): (r: Bytes)
    ensures |r| == 12
  {
    Zeros(4) + ToLe(counter % TWO_64, 8)
  }

  lemma CounterNonceTail(counter: nat, width: nat)
    requires width == 8
    ensures CounterNonce(counter)[4..] == ToLe(counter % TWO_64, width)
  {}

  /** No nonce is used twice before the 64-bit counter wraps. */
  lemma CounterNonceInjective(m: u64, n: u64)
    requires CounterNonce(m) == CounterNonce(n)
    ensures m == n
  {
    CounterNonceTail(m, 8);
    CounterNonceTail(n, 8);
    SpaceOf64Bits(8);
    ToLeInjective(m % TWO_64, n % TWO_64, 8);
  }

  // ----- Sealing, as functions of the counter -----

  type Block = b: Bytes | |b| < TWO_16 witness []

  function Chunks(data: Bytes): (r: seq<Block>)
    ensures data != [] ==> r != []
  {
    if |data| <= MAX_BLOCK then if data == [] then [] else [data]
    else [data[..MAX_BLOCK]] + Chunks(data[MAX_BLOCK..])
  }

  function SealBlock(aead: Aead, key: Bytes, counter: nat, block: Block): Option<Bytes> {
    var aad := U16Le(|block|);
    match aead.seal(key, CounterNonce(counter), aad, block)
    case None => None
    case Some(sealed) => Some(aad + sealed)
  }

  /** All the blocks sealed in order, or nothing if one of them cannot be. */
  function SealBlocks(aead: Aead, key: Bytes, counter: nat, blocks: seq<Block>): Option<Bytes>
    decreases blocks
  {
    if blocks == [] then Some([])
    else
      match SealBlock(aead, key, counter, blocks[0])
      case None => None
      case Some(first) =>
        match SealBlocks(aead, key, counter + 1, blocks[1..])
        case None => None
        case Some(rest) => Some(first + rest)
  }

  /** How many blocks are sealed before the first failure. */
  function SealedCount(aead: Aead, key: Bytes, counter: nat, blocks: seq<Block>): nat
    decreases blocks
  {
    if blocks == [] || SealBlock(aead, key, counter, blocks[0]).None? then 0
    else 1 + SealedCount(aead, key, counter + 1, blocks[1..])
  }

  function Encrypt(aead: Aead, key: Bytes, counter: nat, plaintext: Bytes): Result<Bytes, CipherError> {
    if plaintext == [] then Err(EmptyPlaintext)
    else
      match SealBlocks(aead, key, counter, Chunks(plaintext))
      case None => Err(EncryptionFailed)
      case Some(out) => Ok(out)
  }

  function Join(blocks: seq<Bytes>): Bytes {
    if blocks == [] then [] else blocks[0] + Join(blocks[1..])
  }

  /** Chunking loses nothing, and every chunk is non-empty and at most 1024 bytes. */
  lemma {:induction false} ChunksJoin(data: Bytes)
    ensures Join(Chunks(data)) == data
    ensures forall k :: 0 <= k < |Chunks(data)| ==> 0 < |Chunks(data)[k]| <= MAX_BLOCK
    ensures |Chunks(data)| == (|data| + MAX_BLOCK - 1) / MAX_BLOCK
  {
    if |data| > MAX_BLOCK {
      var rest := Chunks(data[MAX_BLOCK..]);
      ChunksJoin(data[MAX_BLOCK..]);
      assert Chunks(data)[1..] == rest;
    } else if data != [] {
      assert Chunks(data)[1..] == [];
    }
  }

  /** A cipher that seals everything. */
  ghost predicate NeverFails(aead: Aead) {
    forall key, nonce, aad, text :: aead.seal(key, nonce, aad, text).Some?
  }

  lemma {:induction false} SealsAll(aead: Aead, key: Bytes, counter: nat, blocks: seq<Block>)
    requires NeverFails(aead)
    ensures SealBlocks(aead, key, counter, blocks).Some?
    decreases |blocks|
  {
    if blocks != [] { SealsAll(aead, key, counter + 1, blocks[1..]); }
  }

  /** Only nothing at all cannot be encrypted, unless the cipher fails. */
  lemma EncryptsIff(aead: Aead, key: Bytes, counter: nat, plaintext: Bytes)
    ensures plaintext == [] ==> Encrypt(aead, key, counter, plaintext) == Err(EmptyPlaintext)
    ensures NeverFails(aead) && plaintext != [] ==> Encrypt(aead, key, counter, plaintext).Ok?
  {
    if NeverFails(aead) { SealsAll(aead, key, counter, Chunks(plaintext)); }
  }

  // ----- Opening -----

  /** Opening one block, given its length prefix. */
  function DecryptBlock(aead: Aead, key: Bytes, counter: nat, sealed: Bytes, blockLen: u16)
    : Result<Bytes, CipherError>
  {
    if |sealed| < blockLen + TAG_LENGTH then Err(BlockTooShort)
    else
      match aead.open(key, CounterNonce(counter), U16Le(blockLen), sealed)
      case None => Err(DecryptionFailed)
      case Some(plain) => Ok(plain)
  }

  /** A sealed block announces its own length and opens to the block. */
  lemma SealedBlockOpens(aead: Aead, key: Bytes, counter: nat, block: Block, rest: Bytes)
    requires Lawful(aead) && SealBlock(aead, key, counter, block).Some?
    ensures
      var wire := SealBlock(aead, key, counter, block).value + rest;
      var end := 2 + |block| + TAG_LENGTH;
      && |wire| >= end && wire[..2] == U16Le(|block|) && FromU16Le(wire[..2]) == |block|
      && wire[end..] == rest
      && DecryptBlock(aead, key, counter, wire[2..end], |block|) == Ok(block)
  {
    var aad := U16Le(|block|);
    var sealed := aead.seal(key, CounterNonce(counter), aad, block).value;
    var wire := SealBlock(aead, key, counter, block).value + rest;
    assert wire == aad + sealed + rest;
    assert wire[2..2 + |block| + TAG_LENGTH] == sealed;
  }

  // ----- The accessory's end of the channel, written from the layout alone -----

  /** Twelve bytes: four zeros, then the 64-bit counter, least significant byte first. */
  function PeerNonce(counter: nat): Bytes {
    seq(12, i requires 0 <= i < 12 =>
      if i < 4 then 0 else counter % 0x1_0000_0000_0000_0000 / PowerOf256(i - 4) % 256)
  }

  /** One block of the accessory: its length in two bytes, low byte first, which are authenticated as well. */
  function PeerBlock(aead: Aead, key: Bytes, counter: nat, block: Block): Option<Bytes> {
    var prefix: Bytes := [|block| % 256, |block| / 256];
    match aead.seal(key, PeerNonce(counter), prefix, block)
    case None => None
    case Some(sealed) => Some(prefix + sealed)
  }

  /** All the blocks the accessory finds on a wire; none of them may be empty or above 1024 bytes. */
  function PeerRead(aead: Aead, key: Bytes, counter: nat, wire: Bytes): Option<seq<Bytes>>
    decreases |wire|
  {
    if wire == [] then Some([])
    else if |wire| < 2 then None
    else
      var n := wire[0] as int + 256 * wire[1] as int;
      if n == 0 || n > 1024 || |wire| < n + 18 then None
      else
        match aead.open(key, PeerNonce(counter), wire[..2], wire[2..n + 18])
        case None => None
        case Some(block) =>
          match PeerRead(aead, key, counter + 1, wire[n + 18..])
          case None => None
          case Some(more) => Some([block] + more)
  }

  lemma NonceIsPeers(counter: nat)
    ensures CounterNonce(counter) == PeerNonce(counter)
  {
    var c := counter % TWO_64;
    forall i | 0 <= i < 12
      ensures CounterNonce(counter)[i] == PeerNonce(counter)[i]
    {
      if i >= 4 {
        ToLeAt(c, 8, i - 4);
      }
    }
  }

  /** Both ends put a block on the wire in the same way. */
  lemma BlockIsPeers(aead: Aead, key: Bytes, counter: nat, block: Block)
    ensures SealBlock(aead, key, counter, block) == PeerBlock(aead, key, counter, block)
  {
    NonceIsPeers(counter);
  }

  ghost predicate BlockSizes(blocks: seq<Block>) {
    forall k :: 0 <= k < |blocks| ==> 0 < |blocks[k]| <= 1024
  }

  /** What was read before, put in front of what is read next. */
  function Prepend(blocks: seq<Bytes>, more: Option<seq<Bytes>>): Option<seq<Bytes>> {
    match more
    case None => None
    case Some(others) => Some(blocks + others)
  }

  lemma PeerReadsOne(aead: Aead, key: Bytes, counter: nat, block: Block, rest: Bytes)
    requires Lawful(aead) && 0 < |block| <= 1024 && SealBlock(aead, key, counter, block).Some?
    ensures PeerRead(aead, key, counter, SealBlock(aead, key, counter, block).value + rest)
            == Prepend([block], PeerRead(aead, key, counter + 1, rest))
  {
    var prefix := U16Le(|block|);
    var sealed := aead.seal(key, CounterNonce(counter), prefix, block).value;
    var wire := SealBlock(aead, key, counter, block).value + rest;
    NonceIsPeers(counter);
    assert wire == prefix + sealed + rest;
    assert wire[..2] == prefix && wire[2..|block| + 18] == sealed && wire[|block| + 18..] == rest;
  }

  lemma PrependTwice(block: Bytes, blocks: seq<Bytes>, more: Option<seq<Bytes>>)
    requires blocks != [] && blocks[0] == block
    ensures Prepend([block], Prepend(blocks[1..], more)) == Prepend(blocks, more)
  {
    if more.Some? {
      assert [block] + (blocks[1..] + more.value) == blocks + more.value;
    }
  }

  lemma PrependNothing(more: Option<seq<Bytes>>)
    ensures Prepend([], more) == more
  {
    if more.Some? { assert [] + more.value == more.value; }
  }

  /** A reader that takes one sealed block off a wire, and then what follows. */
  ghost predicate TakesBlocks(read: (nat, Bytes) -> Option<seq<Bytes>>, seal: (nat, Block) -> Option<Bytes>) {
    forall counter: nat, block: Block, rest: Bytes ::
      0 < |block| <= 1024 && seal(counter, block).Some? ==>
        read(counter, seal(counter, block).value + rest) == Prepend([block], read(counter + 1, rest))
  }

  function Sealing(aead: Aead, key: Bytes): (nat, Block) -> Option<Bytes> {
    (counter, block) => SealBlock(aead, key, counter, block)
  }

  function PeerReading(aead: Aead, key: Bytes): (nat, Bytes) -> Option<seq<Bytes>> {
    (counter, wire) => PeerRead(aead, key, counter, wire)
  }

  lemma PeerTakesBlocks(aead: Aead, key: Bytes)
    requires Lawful(aead)
    ensures TakesBlocks(PeerReading(aead, key), Sealing(aead, key))
  {
    forall counter: nat, block: Block, rest: Bytes | 0 < |block| <= 1024 && SealBlock(aead, key, counter, block).Some?
      ensures PeerRead(aead, key, counter, SealBlock(aead, key, counter, block).value + rest)
              == Prepend([block], PeerRead(aead, key, counter + 1, rest))
    {
      PeerReadsOne(aead, key, counter, block, rest);
    }
  }

  lemma {:induction false} BlocksAreTaken(read: (nat, Bytes) -> Option<seq<Bytes>>, aead: Aead, key: Bytes,
                                          counter: nat, blocks: seq<Block>, rest: Bytes)
    requires TakesBlocks(read, Sealing(aead, key)) && BlockSizes(blocks)
    requires SealBlocks(aead, key, counter, blocks).Some?
    ensures read(counter, SealBlocks(aead, key, counter, blocks).value + rest)
            == Prepend(blocks, read(counter + |blocks|, rest))
    decreases |blocks|
  {
    var after := read(counter + |blocks|, rest);
    if blocks == [] {
      assert [] + rest == rest;
      PrependNothing(after);
    } else {
      var first := SealBlock(aead, key, counter, blocks[0]).value;
      var more := SealBlocks(aead, key, counter + 1, blocks[1..]).value;
      assert (first + more) + rest == first + (more + rest);
      assert Sealing(aead, key)(counter, blocks[0]) == Some(first);
      BlocksAreTaken(read, aead, key, counter + 1, blocks[1..], rest);
      PrependTwice(blocks[0], blocks, after);
    }
  }

  /** The accessory reads sealed blocks back, and then whatever follows them. */
  lemma PeerReadsBlocks(aead: Aead, key: Bytes, counter: nat, blocks: seq<Block>, rest: Bytes)
    requires Lawful(aead) && BlockSizes(blocks) && SealBlocks(aead, key, counter, blocks).Some?
    ensures PeerRead(aead, key, counter, SealBlocks(aead, key, counter, blocks).value + rest)
            == Prepend(blocks, PeerRead(aead, key, counter + |blocks|, rest))
  {
    PeerTakesBlocks(aead, key);
    BlocksAreTaken(PeerReading(aead, key), aead, key, counter, blocks, rest);
  }

  /** The accessory reads off the wire the plaintext, in as few blocks as 1024 bytes a block allow. */
  lemma PeerReadsEncrypted(aead: Aead, key: Bytes, counter: nat, plaintext: Bytes)
    requires Lawful(aead) && Encrypt(aead, key, counter, plaintext).Ok?
    ensures
      var blocks := PeerRead(aead, key, counter, Encrypt(aead, key, counter, plaintext).value);
      blocks.Some? && Join(blocks.value) == plaintext && |blocks.value| == (|plaintext| + 1023) / 1024
  {
    ChunksJoin(plaintext);
    var blocks := Chunks(plaintext);
    PeerReadsBlocks(aead, key, counter, blocks, []);
    assert SealBlocks(aead, key, counter, blocks).value + [] == SealBlocks(aead, key, counter, blocks).value;
    assert blocks + [] == blocks;
  }

  /** What the accessory seals is opened here, given the length in front of it. */
  lemma PeerBlockOpens(aead: Aead, key: Bytes, counter: nat, block: Block, rest: Bytes)
    requires Lawful(aead) && PeerBlock(aead, key, counter, block).Some?
    ensures
      var wire := PeerBlock(aead, key, counter, block).value + rest;
      var end := |block| + 18;
      && |wire| >= end && FromU16Le(wire[..2]) == |block| && wire[end..] == rest
      && DecryptBlock(aead, key, counter, wire[2..end], |block|) == Ok(block)
  {
    BlockIsPeers(aead, key, counter, block);
    SealedBlockOpens(aead, key, counter, block, rest);
  }

  // ----- Audio payloads -----

  function AudioNonce(sequence: u16): (r: Bytes)
    ensures |r| == 12
  {
    Zeros(4) + U16Le(sequence) + Zeros(6)
  }

  function AudioAad(timestamp: u32, ssrc: u32): Bytes {
    U32Be(timestamp) + U32Be(ssrc)
  }

  /** The packet cipher used by the RTP sender: ciphertext, tag and short nonce apart. */
  function EncryptWithSeq(aead: Aead, key: Bytes, payload: Bytes, timestamp: u32, ssrc: u32, sequence: u16)
    : Option<RtpSenders.EncryptedPayload>
  {
    match aead.seal(key, AudioNonce(sequence), AudioAad(timestamp, ssrc), payload)
    case None => None
    case Some(sealed) =>
      if |sealed| < TAG_LENGTH then None
      else
        var at := |sealed| - TAG_LENGTH;
        Some(RtpSenders.EncryptedPayload(sealed[..at], Some(sealed[at..]), Some(AudioNonce(sequence)[4..])))
  }

  function AudioCipher(aead: Aead, key: Bytes): RtpSenders.PacketCipher {
    (payload: Bytes, timestamp: u32, ssrc: u32, sequence: u16) =>
      EncryptWithSeq(aead, key, payload, timestamp, ssrc, sequence)
  }

  /** What a receiver does with a wire packet: the header is the associated data, the nonce is last. */
  function OpenWirePacket(aead: Aead, key: Bytes, wire: Bytes): Option<Bytes> {
    if |wire| < 12 + TAG_LENGTH + 8 then None
    else aead.open(key, Zeros(4) + wire[|wire| - 8..], wire[4..12], wire[12..|wire| - 8])
  }

  /** Every encrypted wire packet opens to its payload with nothing but the key. */
  lemma WirePacketOpens(aead: Aead, key: Bytes, ssrc: u32, sequence: u16, payloadType: byte,
                        timestamp: u32, payload: Bytes, marker: bool)
    requires Lawful(aead)
    requires aead.seal(key, AudioNonce(sequence), AudioAad(timestamp, ssrc), payload).Some?
    ensures
      var wire := RtpSenders.WirePacket(Some(AudioCipher(aead, key)), ssrc, sequence, payloadType,
                                        timestamp, payload, marker);
      wire.Some? && OpenWirePacket(aead, key, wire.value) == Some(payload)
  {
    var header := SerializeHeader(NewHeader(payloadType, sequence, timestamp, ssrc, marker));
    var sealed := aead.seal(key, AudioNonce(sequence), AudioAad(timestamp, ssrc), payload).value;
    var at := |sealed| - TAG_LENGTH;
    var nonce := AudioNonce(sequence)[4..];
    var wire := header + sealed[..at] + sealed[at..] + nonce;
    assert RtpSenders.WirePacket(Some(AudioCipher(aead, key)), ssrc, sequence, payloadType, timestamp,
                                 payload, marker) == Some(wire);
    assert wire[4..12] == header[4..12] == AudioAad(timestamp, ssrc);
    assert wire[|wire| - 8..] == nonce;
    assert Zeros(4) + nonce == AudioNonce(sequence);
    assert wire[12..|wire| - 8] == sealed;
  }

  /** The nonce of an encrypted wire packet, without its leading zeros. */
  function WireNonce(wire: Bytes): Bytes {
    if |wire| < 8 then wire else wire[|wire| - 8..]
  }

  lemma WireNonceIs(aead: Aead, key: Bytes, ssrc: u32, sequence: u16, payloadType: byte,
                    timestamp: u32, payload: Bytes, marker: bool, wire: Bytes)
    requires RtpSenders.WirePacket(Some(AudioCipher(aead, key)), ssrc, sequence, payloadType, timestamp,
                                   payload, marker) == Some(wire)
    ensures WireNonce(wire) == AudioNonce(sequence)[4..]
    ensures WireNonce(wire) == [sequence % 256, sequence / 256, 0, 0, 0, 0, 0, 0]
  {
    var header := SerializeHeader(NewHeader(payloadType, sequence, timestamp, ssrc, marker));
    var sealed := aead.seal(key, AudioNonce(sequence), AudioAad(timestamp, ssrc), payload).value;
    var at := |sealed| - TAG_LENGTH;
    assert wire == header + sealed[..at] + sealed[at..] + AudioNonce(sequence)[4..];
  }

  lemma AudioNonceInjective(m: u16, n: u16)
    ensures AudioNonce(m)[4..] == AudioNonce(n)[4..] <==> m == n
  {
    assert AudioNonce(m)[4..][..2] == U16Le(m) && AudioNonce(n)[4..][..2] == U16Le(n);
    assert FromU16Le(U16Le(m)) == m && FromU16Le(U16Le(n)) == n;
  }

  // ----- The cipher object -----

  /** A sealed prefix put in front of what is still to be sealed. */
  ghost function Before(out: Bytes, rest: Option<Bytes>): Option<Bytes> {
    match rest
    case None => None
    case Some(bytes) => Some(out + bytes)
  }

  /** Sealing `all` from `start` is the same as keeping `out` and sealing `rest` from `counter`. */
  ghost predicate Progress(aead: Aead, key: Bytes, start: nat, all: seq<Block>,
                           out: Bytes, counter: nat, rest: seq<Block>)
  {
    && start <= counter
    && SealBlocks(aead, key, start, all) == Before(out, SealBlocks(aead, key, counter, rest))
    && SealedCount(aead, key, start, all) == counter - start + SealedCount(aead, key, counter, rest)
  }

  lemma ProgressStep(aead: Aead, key: Bytes, start: nat, all: seq<Block>,
                     out: Bytes, counter: nat, rest: seq<Block>)
    requires rest != [] && Progress(aead, key, start, all, out, counter, rest)
    ensures
      match SealBlock(aead, key, counter, rest[0])
      case None => SealBlocks(aead, key, start, all) == None
                   && SealedCount(aead, key, start, all) == counter - start
      case Some(first) => Progress(aead, key, start, all, out + first, counter + 1, rest[1..])
  {
    var first := SealBlock(aead, key, counter, rest[0]);
    var more := SealBlocks(aead, key, counter + 1, rest[1..]);
    if first.Some? && more.Some? {
      assert out + (first.value + more.value) == (out + first.value) + more.value;
    }
  }

  /** The counter moves by the number of blocks exactly when all of them are sealed. */
  lemma {:induction false} AllSealed(aead: Aead, key: Bytes, counter: nat, blocks: seq<Block>)
    ensures SealBlocks(aead, key, counter, blocks).Some? <==>
            SealedCount(aead, key, counter, blocks) == |blocks|
    ensures SealedCount(aead, key, counter, blocks) <= |blocks|
    decreases blocks
  {
    if blocks != [] {
      AllSealed(aead, key, counter + 1, blocks[1..]);
    }
  }

  lemma BeforeNothing(rest: Option<Bytes>)
    ensures Before([], rest) == rest
  {
    if rest.Some? { assert [] + rest.value == rest.value; }
  }

  lemma NextChunk(data: Bytes, offset: nat)
    requires offset < |data|
    ensures
      var size := if |data| - offset < MAX_BLOCK then |data| - offset else MAX_BLOCK;
      var chunks := Chunks(data[offset..]);
      chunks != [] && chunks[0] == data[offset..offset + size] && chunks[1..] == Chunks(data[offset + size..])
  {
    var rest := data[offset..];
    if |rest| > MAX_BLOCK {
      assert rest[..MAX_BLOCK] == data[offset..offset + MAX_BLOCK];
      assert rest[MAX_BLOCK..] == data[offset + MAX_BLOCK..];
    } else {
      assert rest == data[offset..offset + |rest|] && data[offset + |rest|..] == [];
    }
  }

  class ControlCipher {
    const aead: Aead
    const writeKey: Bytes
    const readKey: Bytes
    var encryptCounter: nat
    var decryptCounter: nat

    constructor (aead: Aead, writeKey: Bytes, readKey: Bytes)
      ensures this.aead == aead && this.writeKey == writeKey && this.readKey == readKey
      ensures encryptCounter == 0 && decryptCounter == 0
    {
      this.aead, this.writeKey, this.readKey := aead, writeKey, readKey;
      encryptCounter, decryptCounter := 0, 0;
    }

    method EncryptAll(plaintext: Bytes) returns (r: Result<Bytes, CipherError>)
      modifies this`encryptCounter
      ensures r == Encrypt(aead, writeKey, old(encryptCounter), plaintext)
      ensures encryptCounter == old(encryptCounter)
              + SealedCount(aead, writeKey, old(encryptCounter), Chunks(plaintext))
    {
      if plaintext == [] {
        return Err(EmptyPlaintext);
      }
      var out: Bytes := [];
      var offset := 0;
      ghost var start, all := encryptCounter, Chunks(plaintext);
      assert plaintext[0..] == plaintext;
      BeforeNothing(SealBlocks(aead, writeKey, start, all));
      while offset < |plaintext|
        invariant 0 <= offset <= |plaintext|
        invariant Progress(aead, writeKey, start, all, out, encryptCounter, Chunks(plaintext[offset..]))
      {
        var remaining := |plaintext| - offset;
        var blockLen := if remaining < MAX_BLOCK then remaining else MAX_BLOCK;
        var block: Block := plaintext[offset..offset + blockLen];
        NextChunk(plaintext, offset);
        ProgressStep(aead, writeKey, start, all, out, encryptCounter, Chunks(plaintext[offset..]));
        var sealed := aead.seal(writeKey, CounterNonce(encryptCounter), U16Le(blockLen), block);
        if sealed.None? {
          return Err(EncryptionFailed);
        }
        out := out + (U16Le(blockLen) + sealed.value);
        encryptCounter := encryptCounter + 1;
        offset := offset + blockLen;
      }
      assert out + [] == out;
      r := Ok(out);
    }

    method OpenBlock(sealed: Bytes, blockLen: u16) returns (r: Result<Bytes, CipherError>)
      modifies this`decryptCounter
      ensures r == DecryptBlock(aead, readKey, old(decryptCounter), sealed, blockLen)
      ensures decryptCounter == old(decryptCounter) + if r.Ok? then 1 else 0
    {
      if |sealed| < blockLen + TAG_LENGTH {
        return Err(BlockTooShort);
      }
      var plain := aead.open(readKey, CounterNonce(decryptCounter), U16Le(blockLen), sealed);
      if plain.None? {
        return Err(DecryptionFailed);
      }
      decryptCounter := decryptCounter + 1;
      r := Ok(plain.value);
    }
  }
}
