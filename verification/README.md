# liba2, verified

A Dafny model of the engines of liba2, an AirPlay 2 sender written in Rust, with proofs of what
they promise. `dafny verify dfyconfig.toml` checks all of it.

Each engine appears twice: as a class or a method with the loops, fields and early exits of the
program, and as functions on values that say what it computes. The methods are proved equal to the
functions, and the properties are proved of the functions over every input and every run.

| Files | What they model |
|---|---|
| `ModArith`, `Srp`, `Tlv`, `PairSetup`, `PairingSession` | Transient pairing: SRP-6a (RFC 5054, RFC 2945), TLV8 messages, the inner and the outer state machine, and an accessory to pair with, written from the RFCs |
| `RtpPacket`, `RtpSender` | RTP packets (RFC 3550) and the 512-slot retransmission history |
| `ControlCipher`, `RtspText`, `RtspRequest`, `RtspReader`, `RtspResponse`, `RtspConnection`, `ControlSession` | The control channel: printed requests and a reader of them, sealed blocks and a peer that opens them, the two readers and the response parser, and the channel after a pairing |
| `AudioBuffer`, `LiveDecoder`, `Encoder`, `Streamer`, `StreamerRuns`, `StreamerWire`, `StreamerSync`, `StreamerPause`, `StreamerDrain` | The audio pipeline: the streaming loop and what every run of it keeps |
| `SenderThread`, `Pipeline` | The deadline scheduler that puts packets on the sockets, and what reaches a receiver from end to end |
| `Ptp`, `PtpWire`, `Clock` | PTP slave loops (IEEE 1588-2008) and NTP arithmetic (RFC 5905) |
| `Discovery` | The record of a device, merged from its AirPlay and RAOP announcements |
| `ByteStrings`, `Sequences`, `Wrappers` | Shared vocabulary |

Hash, AEAD, key derivation, resampler and codec are function parameters. The one law asked of the AEAD is that
opening undoes sealing under equal key, nonce and associated data, with a 16-byte tag. Primality of
the group modulus is a hypothesis. Random numbers, clocks, received data and the socket's answers
are inputs; sent data are results. Rust's wrapping and truncating conversions are written out.

Where the program does something other than its names suggest, the model follows the program:

- `error_ns` bounds the offset error only while, rounding aside, neither leg takes more than three times
  the other (`Ptp.ErrorFieldBoundsIff`, `Ptp.ErrorFieldIsExceeded`).
- The offset is local minus master, and `apply_offset` adds it: the result is the master's time exactly
  when lead and offset cancel, on a symmetric path only without a lead (`Ptp.AddingTheOffset`,
  `Ptp.SymmetricPathCorrects`).
- A stream that ends while Buffering with something, but not more than 10% of the capacity, left to
  play is never played to its end (`StreamerDrain.EndsIffEnough`).
- A FIFO of fewer than four packets can overflow (`StreamerDrain.OverflowsIffSmall`).
- A PTP sync packet announces the RTP time 352 frames ahead, whatever the packet size
  (`StreamerSync.AnnouncesNextPacket`).
- A packet handed over after a pause has overtaken it is dropped by the sender thread, though it has been
  numbered and logged (`Pipelines.SocketsGetTheLog`).
- The packets of one sender repeat a nonce every 65536 messages (`Pipelines.NoncesRepeatIff`).
- A request without a body whose caller supplies a non-zero Content-Length cannot be told from what
  follows it (`RtspConnections.RequestIsSelfDelimiting`).
- Only the removal of a RAOP service removes a device (`Discovery.Converges`).

## Model

| member | source | states |
|---|---|---|
| `Srp.ClientBaseIsPower` | src/crypto/srp.rs:114-121 | For a server key congruent to `k*v + g^b`, the underflow-avoiding subtraction gives exactly `g^b mod N`. |
| `Srp.ClientBaseIsResidue` | src/crypto/srp.rs:117-121 | Either branch gives the residue of `B - k*g^x` modulo `N`. The second formula does so for every key; only the first needs its guard, without which it would underflow. |
| `ModArith.Fermat` | src/crypto/srp.rs:123-124 | Fermat's little theorem, proved from scratch (binomial theorem, Euclid's lemma) for every prime; it is what makes reducing the exponent modulo `N-1` sound. |
| `ModArith.ReduceExponent` | src/crypto/srp.rs:123-124 | For every prime `N` and every base it does not divide, `h^(e mod (N-1))` and `h^e` agree modulo `N`. |
| `Srp.ExponentsCommute` | src/crypto/srp.rs:96-124 | `(g^b)^(a+ux)` is the server's `(A * v^u)^b` modulo `N`, for all exponents and any modulus. |
| `Srp.KeyAgreement` | src/crypto/srp.rs:96-124 | RFC 5054 section 2.6: for every prime `N`, `g` not divisible by it, and all `a`, `b`, `u`, `x`, `k`, the client's secret (underflow branch, reduced exponent) equals the server's. |
| `Srp.SecretsAgree` | src/crypto/srp.rs:92-124 | The same when the server computes `k`, `u` and `x` by its own formulas, written over bytes from RFC 5054 sections 2.4, 2.5.3 and 2.6 and sharing none of the client's. |
| `Srp.MutualProofs` | src/crypto/srp.rs:92-152 | How a client with the right password answers such a server, however many leading zeros the key has: it refuses exactly a zero key or a zero scrambler, and otherwise session key, client proof and expected server proof are all three the server's own, section 3 of RFC 2945. |
| `Srp.PadIsPad` | src/crypto/srp.rs:196-205 | Byte i of a padded number is its digit of weight 256^(383-i), for every number: cut on the left if it is too long, zero-extended if it is too short. |
| `Srp.ProofTextsAgree` | src/crypto/srp.rs:159-194 | The client proof is the server's, byte for byte of the hashed text, for every key and session key. |
| `Srp.RefusedIff` | src/crypto/srp.rs:92-110 | Whatever a server sends, its key is refused exactly when the modulus divides it, and the challenge is accepted exactly when it does not and the scrambler is not zero. |
| `Srp.ProofTextBinds` | src/crypto/srp.rs:159-194 | The text hashed into the client proof binds the whole exchange: for one group, equal texts with salts of equal length and keys that fit the field have equal identity digests, salts, public keys and session keys. |
| `Srp.PadToNValue` | src/crypto/srp.rs:196-205 | Padding a public key to 384 bytes keeps its value, for every value below 2^3072. |
| `Tlv.FragmentsOfWire` | src/crypto/tlv.rs:26-65 | Reading the bytes of any list of fragments gives back exactly that list. |
| `Tlv.WireOfFragments` | src/crypto/tlv.rs:26-65 | And printing what was read gives back exactly the bytes. |
| `Tlv.ParsesExactly` | src/crypto/tlv.rs:26-65 | Parsing succeeds if and only if the input is a sequence of whole fragments. |
| `Tlv.ParseMeaning` | src/crypto/tlv.rs:26-65 | A parsed map has exactly the types that occur, each with the concatenation, in order, of every fragment of that type, adjacent or not. |
| `Tlv.PrintedInOrder` | src/crypto/tlv.rs:67-89 | Items are printed in increasing order of type. |
| `Tlv.RoundTrip` | src/crypto/tlv.rs:26-89 | For every map, empty values and values longer than 255 bytes included, parsing its encoding returns that map. |
| `Tlv.CanonicalForm` | src/crypto/tlv.rs:26-89 | Encoding is a canonical form of every input that parses: re-parsing gives the same map, encoding again the same bytes, and two inputs mean the same map if and only if their canonical bytes are equal. |
| `Tlv.SplitSize` | src/crypto/tlv.rs:67-89 | A value of n bytes takes one fragment if empty and otherwise n/255 rounded up, at two bytes of overhead each. |
| `Tlv.Tlv8.ReadItems` | src/crypto/tlv.rs:26-65 | The loop over index, length byte and last type computes the fragment-list specification, errors included. |
| `Tlv.Tlv8.Encode` | src/crypto/tlv.rs:67-89 | The printing loops produce the bytes of the sorted, fragmented items. |
| `PairSetups.ReadsEncoded` | src/pairing/pair_setup.rs:58-116 | Reading an encoded M2 or M4 is reading its items: fragmentation never changes which check fails or what is extracted. |
| `PairSetups.M1OnTheWire` | src/crypto/tlv.rs:107-113 | The first message of every pairing, byte for byte. |
| `PairSetups.M3OnTheWire` | src/pairing/pair_setup.rs:141-168 | An M3 byte for byte: the padded key as a fragment of 255 and one of 129 bytes, the 64-byte proof, the state. |
| `PairSetups.M2AcceptedIff` | src/pairing/pair_setup.rs:65-117 | Exactly which items make an M2 (no error, a state that begins with 2, sixteen bytes of salt, at most 384 of key), and that salt and key are then the ones sent. |
| `PairSetups.M4AcceptedIff` | src/pairing/pair_setup.rs:182-207 | Exactly which items make an M4, and that the proof is then the one sent. |
| `PairSetups.FailedIsAbsorbing` | src/pairing/pair_setup.rs:36-242 | In state Failed every operation returns an error and leaves the state unchanged. |
| `PairSetups.PairSetup.ProcessM4` | src/pairing/pair_setup.rs:170-225 | New state and result are those of the step function, which reaches M4Received exactly for the expected proof and Failed otherwise; Complete comes only from `CompleteTransient`. |
| `PairingSessions.RunInvariant` | src/pairing/session.rs:28-76 | Over every sequence of calls, stage and inner state occur only in the listed combinations, and everything the session holds (client, proof, keys) has its evidence in an earlier call. |
| `PairingSessions.StartedByTheFirst` | src/pairing/session.rs:28-42 | The first start of a run makes the session's setup; nothing else makes one, and nothing takes it away. |
| `PairingSessions.KeysAreEarned` | src/pairing/session.rs:44-76 | Session keys exist only if, in this order, the first start of the run made this session's client, that client accepted an M2, and an M4 arrived whose proof is the one computed from that M2; and they are derived from that secret. |
| `PairingSessions.FailureIsFinal` | src/pairing/session.rs:28-76 | Once the inner machine has failed, no later sequence of calls leaves the failed state or produces keys. |
| `PairingSessions.TakenOnce` | src/pairing/session.rs:74-76 | Keys are handed out once: whatever is called after they were taken, the session holds none again. |
| `PairingSessions.PublicKeySpansTwoFragments` | src/pairing/pair_setup.rs:141-168 | A padded 384-byte public key always travels as two TLV8 fragments, a full one of 255 bytes and one of 129, each with its two bytes in front. |
| `PairingSessions.AccessoryReadsM3` | src/pairing/pair_setup.rs:141-225 | An accessory that reads M3 by the type codes of its items and asks for a 384-byte key finds the client's own key and proof; its M4 is accepted if and only if the client's proof is the one it expects. |
| `PairingSessions.M1IsTaken` | src/pairing/pair_setup.rs:36-50 | The accessory, which sends its M2 only to a request with state 1, method 0, the transient flag and nothing else, takes the M1 of every new session. |
| `PairingSessions.PairingOutcome` | src/pairing/session.rs:28-72 | How a run against any accessory that takes M1 ends: Complete with keys of this secret exactly when both proofs agree, otherwise Failed and without keys. |
| `PairingSessions.HonestPairing` | src/pairing/session.rs:28-72 | With the right PIN, a non-zero key and scrambler and any stripping of leading zeros, every run from M1 on against a server of RFC 5054 with identity "Pair-Setup" ends Complete with the keys of the accessory's own secret. |
| `PairingSessions.HonestPairingByDefault` | src/crypto/srp.rs:31-37 | The same for the group the library uses, of which nothing is asked but that its modulus is prime. |
| `PairingSessions.PairingSession.ContinueTransientPairing` | src/pairing/session.rs:44-72 | New state and result are those of the step function, errors of the inner machine included. |
| `ControlSessions.ChannelAfterPairing` | src/client/handshake.rs:102-111 | After an honest pairing both ends have the same control keys, derived with HKDF under the two labels, each for its direction: the accessory reads what this end encrypts, and is read by it. |
| `ControlSessions.AccessoryReadsRequests` | src/rtsp/connection.rs:51-133 | An accessory that decrypts a run of requests, however they are cut into blocks, reads each of them: verb, URI, number, every header with its exact value, and the body. |
| `RtpPackets.HeaderRoundTrip` | src/audio/rtp/packet.rs:34-55 | A receiver following RFC 3550 section 5.1 reads back every header field that fits its bits. |
| `RtpPackets.NewHeaderBytes` | src/audio/rtp/packet.rs:17-55 | The twelve bytes of a new header by their values: 0x80, the marker bit over the payload type, number, timestamp and ssrc in network order; and what a receiver reads out of them. |
| `RtpPackets.RequestRoundTrip` | src/audio/rtp/retransmit.rs:11-32 | Any request of at least twelve bytes, whatever its marker bit, unused fields and trailing bytes, is read back exactly. |
| `RtpSenders.AnswerCount` | src/audio/rtp/sender.rs:361-411 | A request is answered with exactly as many packets as there are logged packets among the last 512 with a requested number. |
| `RtpSenders.AnswerBound` | src/audio/rtp/sender.rs:361-411 | Never more than the requested count, and never more than 512, through every wrap of the sequence number. |
| `RtpSenders.AnswersAreLogged` | src/audio/rtp/sender.rs:372-410 | Every answer is a requested, recent packet exactly as it was logged; a stale slot is never sent. |
| `RtpSenders.WantedAreAnswered` | src/audio/rtp/sender.rs:372-410 | Every requested, recent packet is among the answers. |
| `RtpSenders.AnswersInOrder` | src/audio/rtp/sender.rs:372-410 | Answers come in the order in which their numbers were asked for, through the wrap of the numbers too. |
| `RtpSenders.WirePacketBytes` | src/audio/rtp/sender.rs:66-128 | Every wire packet has the header bytes of its marker, payload type, number, timestamp and ssrc; after them comes the payload, or with a cipher its data, tag and nonce. |
| `RtpSenders.ResponseStamp` | src/audio/rtp/retransmit.rs:35-52 | A response begins 0x80, 0xD6 and the original's sequence number, and goes on with the original unchanged. |
| `RtpSenders.MirrorsAfterSend` | src/audio/rtp/sender.rs:130-141 | After a send the 512-slot ring again holds exactly the last 512 logged packets, each in its slot. |
| `RtpSenders.SlotAgrees` | src/audio/rtp/sender.rs:378-392 | For every sequence number the slot, checked against the number stamped in it, says what the full log says. |
| `RtpSenders.RingRefinesLog` | src/audio/rtp/sender.rs:372-410 | The ring answers every request exactly as the full log would. |
| `RtpSenders.RtpSender.SerializeAudio` | src/audio/rtp/sender.rs:66-142 | The in-place update of ring, sequence and log is that of the log specification; a packet has the header bytes of the given marker, timestamp and next number; a failed encryption changes nothing. |
| `RtpSenders.SyncFields` | src/audio/rtp/sender.rs:213-256 | A receiver reads the sequence number, the RTP time (twice) and the NTP time back out of the twenty bytes. |
| `RtpSenders.PtpSyncFields` | src/audio/rtp/sender.rs:258-307 | And out of the PTP form the next RTP time, the clock id, and seconds and fraction that are the NTP time of the same moment counted from 1970. |
| `RtpSenders.RtpSender.HandleRetransmit` | src/audio/rtp/sender.rs:361-411 | With all sends accepted the answers of the full log are sent and counted exactly; otherwise those before the first refusal, with an error. |
| `ControlCiphers.CounterNonceInjective` | src/crypto/chacha.rs:151-155 | No two 64-bit counters share a nonce. |
| `ControlCiphers.ChunksJoin` | src/crypto/chacha.rs:43-77 | Cutting loses nothing; every block is non-empty, at most 1024 bytes, and there are n/1024 of them rounded up. |
| `ControlCiphers.SealedBlockOpens` | src/crypto/chacha.rs:79-105 | A sealed block announces its own length and opens under the same key and counter, whatever follows it. |
| `ControlCiphers.BlockIsPeers` | src/crypto/chacha.rs:43-77 | A sealed block is byte for byte that of an accessory that builds prefix, associated data and nonce by their layout: the length low byte first, four zeros and the 64-bit counter low byte first. |
| `ControlCiphers.PeerReadsEncrypted` | src/crypto/chacha.rs:43-77 | Such an accessory, which takes blocks of 1 to 1024 bytes only, reads back exactly what was encrypted, in as few blocks as that allows. |
| `ControlCiphers.PeerBlockOpens` | src/crypto/chacha.rs:79-105 | And what it seals is opened here under the length that stands in front of it. |
| `ControlCiphers.EncryptsIff` | src/crypto/chacha.rs:43-77 | Only the empty plaintext is refused by a cipher that does not fail. |
| `ControlCiphers.AllSealed` | src/crypto/chacha.rs:43-77 | The counter advances by the number of blocks if and only if all of them are sealed. |
| `ControlCiphers.WirePacketOpens` | src/crypto/chacha.rs:114-149 | Every encrypted audio packet opens to its payload from the wire bytes and the key alone: associated data from the header, nonce from the tail. |
| `ControlCiphers.ControlCipher.EncryptAll` | src/crypto/chacha.rs:43-77 | Output and counter are those of sealing the chunks in order, also when one fails halfway. |
| `RtspText.DecimalRoundTrip` | src/rtsp/request.rs:50-81 | A printed length is read back if and only if it fits the reader's integer. |
| `RtspReaders.NumbersAreRead` | src/rtsp/response.rs:79-99 | The numbers read are exactly the decimal ones below the limit, with or without a plus sign. |
| `RtspText.AnyCaseDeclares` | src/rtsp/connection.rs:193-215 | A header line declares a length exactly when its key spells content-length, each letter small or capital. |
| `RtspText.WhiteSpaceIsTrimmed` | src/rtsp/response.rs:33-38 | The characters trimmed are exactly those with the property White_Space, by their code points. |
| `RtspText.WellFormedIsScalar` | src/rtsp/response.rs:13-31 | What is accepted as a character is the UTF-8 encoding of a scalar value. |
| `RtspText.ScalarIsWellFormed` | src/rtsp/response.rs:13-31 | And every such encoding is accepted. |
| `RtspText.LinesOfHead` | src/rtsp/response.rs:13-65 | Header text splits into exactly the lines it was made of. |
| `RtspText.TerminatorOfPrefix` | src/rtsp/connection.rs:172-217 | A partially received message shows the same header terminator as the whole, and only once it contains it. |
| `RtspText.HeaderEnds` | src/rtsp/connection.rs:172-217 | A message of clean lines ends its header at its empty line, whatever bytes the body holds. |
| `RtspRequests.Serialize` | src/rtsp/request.rs:50-81 | Writing piece by piece gives the request line, the sequence number, the length if there is a body, the headers in byte order of their keys, the empty line and the body; a reader gets all of them back (`RtspReaders.RequestRoundTrip`). |
| `RtspReaders.RequestRoundTrip` | src/rtsp/request.rs:50-81 | A reader written from the grammar alone (literal verbs, spaces, CRLF, colons) gets back from a printed request, whatever follows it, exactly the request: verb, URI, number, every header with its exact value, and the body or none. |
| `ControlSessions.RequestsRoundTrip` | src/rtsp/request.rs:50-81 | And from a run of printed requests each of them in turn, with its number. |
| `RtspRequests.RequestDeclares` | src/rtsp/request.rs:50-81 | What a reader finds as the length of a printed request: the body's if there is one, else whatever the caller's own headers say. |
| `RtspRequests.NoLengthSupplied` | src/rtsp/request.rs:36-81 | Headers without colons in their keys and without a Content-Length declare nothing. |
| `RtspRequests.RequestLinesAreClean` | src/rtsp/request.rs:50-81 | A request whose URI and headers hold no CR or LF prints as clean lines. |
| `RtspConnections.CompleteExactlyAtTheEnd` | src/rtsp/connection.rs:193-215 | For a self-delimiting message no proper prefix passes the completeness test, and the whole does. |
| `RtspConnections.ReadsToTheEnd` | src/rtsp/connection.rs:172-217 | A reader whose completeness test first succeeds with the last block returns all data, leaves what follows unread and has counted every block. |
| `RtspConnections.Reassembles` | src/rtsp/connection.rs:172-217 | However a self-delimiting message is cut into non-empty sealed blocks, the reader returns it exactly, never stopping early or reading on. |
| `RtspConnections.OnlySelfDelimiting` | src/rtsp/connection.rs:172-217 | Conversely only a self-delimiting message is ever delivered whole. |
| `RtspConnections.RunRoundTrip` | src/rtsp/connection.rs:51-217 | Any run of self-delimiting messages under one cipher is recovered message by message, with equal counters at the end. |
| `RtspConnections.RequestIsSelfDelimiting` | src/rtsp/request.rs:50-81 | A printed request is self-delimiting if and only if it has a body or its caller's headers declare no non-zero length. |
| `RtspConnections.RequestsAreRecovered` | src/rtsp/connection.rs:51-217 | Every run of such requests, printed with consecutive numbers and encrypted by one cipher, is recovered byte for byte with the matching key. |
| `RtspConnections.ReadsPlainIff` | src/rtsp/connection.rs:135-170 | The plaintext reader returns a message of clean text lines whole, whatever follows, if and only if the first readable Content-Length among the lines is its body length. |
| `RtspConnections.BothReadersReturn` | src/rtsp/connection.rs:135-217 | For all such lines and bodies both readers, the encrypted one under every split, return exactly the message and leave what follows. |
| `RtspConnections.ResponseIsSelfDelimiting` | src/rtsp/connection.rs:193-215 | A well-formed response can be told from what follows it by its own header. |
| `RtspConnections.BothReadersAgree` | src/rtsp/connection.rs:135-217 | For every CRLF-formed response, whatever its padding, with or without a reason and with any lines besides, whose status line can be read and whose one Content-Length is its body length: the plaintext reader and, under every split, the encrypted reader return the same bytes, and parsing them gives that status, those headers and that body. |
| `RtspConnections.ResponsesRecoveredIff` | src/rtsp/connection.rs:135-170 | A run of well-formed plaintext responses is recovered, with what follows it, if and only if no read buffers a byte beyond its own response; what is buffered is lost with the reader. |
| `RtspConnections.RtspConnection.Outgoing` | src/rtsp/connection.rs:51-133 | The sequence number goes up by one, session headers override, and the bytes are the printed request or its encryption under the cipher's counter; a reader of the printed bytes gets back exactly that request and number. |
| `RtspConnections.RtspConnection.ReadEncryptedResponse` | src/rtsp/connection.rs:172-217 | The block loop returns what the specification returns and leaves the same counter and the same unread bytes. |
| `RtspConnections.RtspConnection.ReadPlaintextResponse` | src/rtsp/connection.rs:135-170 | The line loop returns what the specification returns, and takes with it whatever its buffer has read beyond the response. |
| `RtspResponses.ReadHeaders` | src/rtsp/response.rs:33-38 | The header loop builds the map in which the last line of a key counts. |
| `RtspResponses.StatusLineReads` | src/rtsp/response.rs:79-99 | A version, a code without spaces and any reason or none are read back as they are: a wrong version or an unreadable code is refused, a missing reason is the empty one. |
| `RtspResponses.StatusLineHasParts` | src/rtsp/response.rs:79-99 | Every line with a space has such parts, and every line without one is refused. |
| `RtspResponses.PaddedFieldReads` | src/rtsp/response.rs:35-36 | However key and value are padded with white space, the line's field is the two of them. |
| `RtspResponses.FieldMapMeaning` | src/rtsp/response.rs:33-38 | A key is in the parsed map exactly when some field has it, and its value is that of the last field with it. |
| `RtspResponses.MapLength` | src/rtsp/response.rs:40-44 | Looking the length up in the parsed map, in any letter case, gives the length the fields declare. |
| `RtspResponses.TextLength` | src/rtsp/connection.rs:193-215 | For every well-formed response, scanning the header text line by line gives the same length as the parsed map. |
| `RtspResponses.ParsesWire` | src/rtsp/response.rs:13-65 | Parsing a well-formed response, of whatever lines, yields exactly what its status line says, its fields and its body. |
| `RtspResponses.ParsesDeclared` | src/rtsp/response.rs:46-65 | However many bytes follow the header: fewer than declared are an error, and of more exactly the declared ones are the body. |
| `LiveDecoders.PacketConserves` | src/audio/live_decoder.rs:130-185 | Every packet is full-size; unless a conversion fails, packet then residual is old residual then newly received samples, and end of stream is never forgotten. |
| `LiveDecoders.PacketConsumes` | src/audio/live_decoder.rs:104-185 | A packet takes receives from the front of the channel, none if the residual suffices, and every frame among them is on record, as is a closed channel. |
| `LiveDecoders.PassedThrough` | src/audio/live_decoder.rs:150-160 | At equal rates what is received is the frames, one after the other, unchanged. |
| `LiveDecoders.PacketAtEof` | src/audio/live_decoder.rs:104-185 | At the end of the stream packets come from the residual alone, whatever the channel does. |
| `LiveDecoders.LiveAudioDecoder.DecodeResampled` | src/audio/live_decoder.rs:130-185 | The collecting loop, with or without a resampler and whether or not it fails, returns and leaves exactly what the specification does, for every sequence of receives. |
| `AudioBuffers.AudioBuffer.Push` | src/audio/buffer.rs:49-58 | Refused, without change, exactly when full; otherwise the frame goes last. |
| `AudioBuffers.AudioBuffer.Pop` | src/audio/buffer.rs:60-65 | The oldest frame, exactly when there is one. |
| `AudioBuffers.CapacityIs` | src/audio/buffer.rs:31-47 | The capacity is as many whole packets as the time's samples make, but at least one. |
| `AudioBuffers.LibraryCapacities` | src/core/codec.rs:76-101 | For two seconds at the library's rates and packet sizes it is 250, 272, 85 or 93 packets. |
| `Encoders.FullPacket` | src/audio/encoder.rs:55-89 | A full-size packet passes an empty encoder buffer unchanged, leaves it empty and advances the timestamp by one packet's frames. |
| `Encoders.EncodeKeeps` | src/audio/encoder.rs:55-89 | Whatever is put in goes out with the packet or stays in the buffer, and the timestamp advances by the frames that went out. |
| `Encoders.AlacEncoder.EncodePacket` | src/audio/encoder.rs:76-89 | Draining the buffer in place gives the packet and the state of the specification. |
| `StreamerRuns.Conservation` | src/audio/streamer.rs:325-347 | In every run without an overflow or a resampler error, what was coded, then the FIFO, then the decoder residual is exactly what was received (at the target rate); every coded frame is full-size and the encoder's own buffer stays empty. |
| `StreamerRuns.PacketsAsNumbered` | src/audio/streamer.rs:574-660 | In every run message n carries for sender k the n-th packet since the start: that sequence number, the encoder's timestamp modulo 2^32, the codec's output for the first n+1 frames. The sender's log holds exactly these packets and, only if the run has ended in an error, perhaps one more that was not handed over. |
| `StreamerWire.WireOfRun` | src/audio/streamer.rs:574-660 | In every run, byte for byte: wire packet n of each sender is an RTP packet of version 2 with the n-th number and timestamp, whose marker bit is set in exactly the first packet and the first one after each flush; without a cipher its payload follows in the clear. |
| `StreamerWire.EncryptedWireOfRun` | src/audio/streamer.rs:574-660 | And with a cipher, a receiver that has the key opens it to that payload. |
| `StreamerWire.CountersOfRun` | src/audio/streamer.rs:652-660 | In every run the packet counter is the number of messages sent, and the timestamp, until an error, that of the next packet. |
| `StreamerRuns.RetransmitsAsSent` | src/audio/streamer.rs:141-152 | In every run each message among the last 512 packets that a sender has numbered can be had again from it, unchanged. |
| `StreamerRuns.HoldsTheLatest` | src/audio/streamer.rs:141-152 | These are the last 512 messages, or at least the last 511 when the run has ended in an error. |
| `StreamerSync.SyncCadence` | src/audio/streamer.rs:607-631 | In every run and through every 32-bit wrap, message n has timestamp n packets, and a sync is due exactly when it is first since the start or a flush, when the last sync was at RTP time 0, or when the true distance has reached a second; consecutive sync decisions are less than a second and a packet apart. |
| `StreamerSync.SyncWithinASecond` | src/audio/streamer.rs:607-631 | The packet just sent is always less than a second of samples after the last sync decision. |
| `StreamerSync.FirstAfterFlush` | src/audio/streamer.rs:276-282 | From any state, the first message after a flush has the marker and, with a control port, a sync packet beginning 0x90; no later one has the marker, and a sync packet is sent exactly when one is due and there is a control port, beginning 0x80. |
| `StreamerSync.FirstAfterStart` | src/audio/streamer.rs:599-631 | The same from the start of a run. |
| `StreamerSync.SyncsAsStamped` | src/audio/streamer.rs:589-631 | In every run, flushes included, sync packets carry consecutive numbers, and each the RTP time of its own message and the moment it is to be heard: the clock of the turn that sent it, put right by the latest offset a working turn was given, plus the render delay. |
| `StreamerSync.AnnouncesNextPacket` | src/protocol.rs:12-14 | At both sample rates of the library a PTP sync announces the next packet's timestamp, through every wrap, if and only if packets have 352 frames. |
| `StreamerDrain.OverflowsIffSmall` | src/audio/streamer.rs:325-389 | At equal rates some run overflows the FIFO if and only if its capacity is below four packets. |
| `StreamerDrain.RunNoOverflow` | src/audio/streamer.rs:325-389 | With room for four packets or more no run from any healthy state overflows, whatever arrives and whoever pauses, resumes or flushes. |
| `StreamerDrain.LibraryStreamsFit` | src/audio/streamer.rs:18-22 | So no run of a stream in one of the library's own formats overflows its two-second buffer. |
| `StreamerDrain.RefillsIffLow` | src/audio/streamer.rs:374-389 | Given packets to decode, a refill queues some exactly when less than two fifths of the buffer are full. |
| `StreamerDrain.UndeliveredIsLast` | src/audio/streamer.rs:662-678 | A message that the sender thread does not take any more is the last one of the run. |
| `StreamerPause.PauseIsTransparent` | src/audio/streamer.rs:250-274 | Between a pause and a resume, through any calls and turns but those a pause overtook, nothing is sent; and the run goes on as if there had been no pause, apart from the flushes that came meanwhile. |
| `StreamerDrain.Drains` | src/audio/streamer.rs:537-725 | From Streaming at the end of the stream, exactly the buffered and residual whole packets are sent, then the state is Stopped and stays so. |
| `StreamerDrain.PlayedIsReceived` | src/audio/streamer.rs:537-725 | From the start to that stop, what was played is what was received, cut to whole packets. |
| `StreamerDrain.EndsIffEnough` | src/audio/streamer.rs:391-414 | A stream that ends while Buffering is played to its end and stops if and only if nothing, or more than the 10% resume level, is left to play. |
| `StreamerDrain.WaitsForever` | src/audio/streamer.rs:396-413 | Otherwise it waits for ever: nothing more is played however long the loop runs. |
| `Streamers.AudioStreamer.RunOnce` | src/audio/streamer.rs:537-725 | A turn of the loop, with all its early exits, is one step of the specification on the whole state; `TestStatus` and `Work` are its two halves, between which others may take the lock. |
| `SenderThreads.Conservation` | src/audio/sender_thread.rs:144-307 | In every run, packets flushed and then packets pending are exactly those received outside pause, in order; fewer than a burst is pending, and the first packet is never held back. |
| `SenderThreads.ModesAgree` | src/audio/sender_thread.rs:144-193 | Whether the thread listens, is paused or has left depends on the events alone; in a pause only Resume and Stop count. |
| `SenderThreads.EachTargetGetsItsOwn` | src/audio/sender_thread.rs:254-291 | Each receiver's data socket gets exactly its own share of each packet, in order, none twice and none lost: its wire packets, and its sync packets too when it has no control socket. |
| `SenderThreads.HeardIffLive` | src/audio/sender_thread.rs:161-193 | All packets that arrive are heard if and only if none of them arrives in a pause or after the end. |
| `SenderThreads.RunIsSpaced` | src/audio/sender_thread.rs:195-332 | In every well-timed run, catch-up and deadline resets included, burst j comes no earlier than `(j-i-2-r)` burst durations after burst i, r being the resumes in between. |
| `SenderThreads.WindowBound` | src/audio/sender_thread.rs:195-332 | So a window of length L without a resume carries at most `L / burst_duration + 3` bursts. |
| `SenderThreads.BoundIsReached` | src/audio/sender_thread.rs:195-332 | The bound cannot be lowered: for every whole number k of durations there is a well-timed run with k + 3 bursts within them. |
| `SenderThreads.SinceLastResume` | src/audio/sender_thread.rs:161-193 | In every well-timed run burst n after the last resume at time t comes no sooner than t + n periods; once anything had been sent the deadline is exactly that, for as long as no burst is done more than two periods late, and then it is when that burst was done. |
| `SenderThreads.SinceFirstBurst` | src/audio/sender_thread.rs:195-332 | The same from the arrival of the first packet, for runs without a later resume. |
| `SenderThreads.BurstsAreFull` | src/audio/sender_thread.rs:195-307 | The first burst is one packet, every other one exactly as many as configured. |
| `SenderThreads.Hold` | src/audio/sender_thread.rs:161-181 | The inner loop of a pause ends only at Resume or Stop; it leaves the deadline where the specification does, at the time of the resume, and changes nothing else. |
| `SenderThreads.SenderThreadMain` | src/audio/sender_thread.rs:103-338 | The loop puts on the sockets exactly the sends of the packets the specification has flushed, each preceded by its own sync data, and has left exactly when the events say so. |
| `Pipelines.SocketsGetTheLog` | src/audio/streamer.rs:662-678 | Streamer, channel and sender thread together: when the first m messages have arrived, each receiver has got exactly its own sender's numbered packets, in order and without gaps, up to fewer than a burst still pending, if and only if none of them arrived in a pause or after the end. |
| `Pipelines.OvertakenIsLost` | src/audio/streamer.rs:250-260 | Such losses do occur: the first message of any run is lost if a pause overtakes it on the channel. |
| `Pipelines.StampedOnMasterTimeIff` | src/audio/streamer.rs:593-597 | From the PTP exchange to the sync packet: a message sent under a published offset is stamped with the master's time plus the render delay if and only if lead and offset cancel. |
| `Pipelines.NoncesRepeatIff` | src/crypto/chacha.rs:114-149 | In every run two packets of an encrypting sender carry the same nonce if and only if their messages are a multiple of 65536 apart. |
| `Ptp.HeaderRoundTrip` | src/timing/ptp/types.rs:121-167 | Every well-formed header is read back from its bytes, whatever follows. |
| `Ptp.NanosRoundTrip` | src/timing/ptp/types.rs:46-55 | Nanoseconds survive the stamp if and only if their seconds fit 64 bits. |
| `Ptp.TimestampRoundTrip` | src/timing/ptp/types.rs:57-81 | A stamp survives the wire if and only if its seconds fit 48 bits. |
| `PtpWire.SignalsOfBytes` | src/timing/ptp/flows/slave.rs:101-207 | Exactly which datagrams are signals, by port, length and the low half of the first byte, and that the stamps are the numbers at bytes 34 to 39 and 40 to 43. |
| `PtpWire.MessagesAreRead` | src/timing/ptp/flows/slave.rs:101-207 | What a peer's message is to the slave, whatever follows it: a Sync, a Follow_Up or a Delay_Resp with exactly the stamp the peer put in, each on its own port, and nothing else. |
| `PtpWire.AnnounceOfBytes` | src/timing/ptp/flows/bmca.rs:117-126 | Exactly which datagrams are an Announce, and that priority and identity are bytes 47 and 53 to 60. |
| `PtpWire.AnnouncesAreRead` | src/timing/ptp/flows/bmca.rs:117-126 | The priority and the identity a peer writes into its Announce are read back. |
| `PtpWire.RequestIsRead` | src/timing/ptp/flows/slave.rs:184-198 | A master reads out of a Delay_Req its version, length, sender, number and time. |
| `Ptp.OffsetError` | src/timing/ptp/flows/slave.rs:131-146 | With true offset theta and delays d1, d2 whose offset and round trip fit the i64 and u64 they are cast to, the published offset is off by at most half the delay difference (rounding aside), so by at most `rtt_ns + 1`, and is exactly theta when d1 = d2. |
| `Ptp.ErrorFieldBoundsIff` | src/timing/ptp/flows/slave.rs:131-146 | Exactly when `error_ns` bounds the offset error, for all legs that fit the casts and all roundings: when the asymmetry, with the nanosecond that rounding may add or take, is at most twice a quarter of the round trip. |
| `Ptp.ErrorFieldBoundsEvenIff` | src/timing/ptp/flows/slave.rs:131-146 | Where nothing is rounded: if and only if neither leg takes more than three times the other. |
| `Ptp.OffsetErrorIs` | src/timing/ptp/flows/slave.rs:131-146 | Twice the offset error is exactly the asymmetry of the path, plus or minus the rounding. |
| `Ptp.ErrorFieldIsExceeded` | src/timing/ptp/flows/slave.rs:144 | A family of witnesses: with the whole, non-zero delay on one leg the error is twice `error_ns`. |
| `Ptp.AddingTheOffset` | src/timing/clock.rs:32-35 | For every published offset, all leads and legs and even where the cast wraps: `apply_offset` gives the master's time if and only if lead and published offset cancel modulo 2^64. |
| `Ptp.OffsetCorrectsIff` | src/timing/clock.rs:32-35 | Where lead and offset fit 64 signed bits: if and only if the published offset is the lead with its sign changed. |
| `Ptp.CorrectsEvenly` | src/timing/ptp/flows/slave.rs:131-146 | Where nothing is rounded, that is if and only if the way back takes longer by exactly four times the lead. |
| `Ptp.SymmetricPathCorrects` | src/timing/ptp/flows/slave.rs:131-146 | So on a symmetric path the time comes out right if and only if there is no lead. |
| `Ptp.AsymmetryDecides` | src/timing/ptp/flows/slave.rs:131-146 | Witnesses both ways: no lead and an unequal path is put wrong, a lead and an unequal path may be put right. |
| `Ptp.StampsAreOfTheRound` | src/timing/ptp/flows/slave.rs:101-207 | After every interleaving the stamps held are the latest of the current round, and t1 is set exactly when t3 is. |
| `Ptp.PublishesExactly` | src/timing/ptp/flows/slave.rs:120-207 | An offset is published at a valid Delay_Resp exactly when a Sync and a Follow_Up came since the previous valid one, and is made of the latest of each. |
| `PtpWire.PublishedFromBytes` | src/timing/ptp/flows/slave.rs:101-207 | From the bytes of a run: a Delay_Resp publishes the offset made of its own stamp, of the stamp in the latest Follow_Up since the one before it, and of the times when that and the latest Sync were handled. |
| `PtpWire.NothingElsePublished` | src/timing/ptp/flows/slave.rs:101-207 | Any other datagram, and a Delay_Resp without a Sync or a Follow_Up, publishes nothing. |
| `PtpWire.RequestsOfRun` | src/timing/ptp/flows/slave.rs:176-205 | In every run each Follow_Up is answered by exactly one Delay_Req, numbered from 1 up and wrapping, with the time at which it was handled. |
| `Ptp.OrderWithinRound` | src/timing/ptp/flows/slave.rs:101-207 | Sync and Follow_Up of a round may be handled in either order. |
| `Ptp.RunPtpSlave` | src/timing/ptp/flows/slave.rs:8-209 | The event loop publishes exactly those offsets and sends one Delay_Req for each Follow_Up, numbered from 1. |
| `Ptp.RunBmcaSlave` | src/timing/ptp/flows/bmca.rs:174-257 | The same machine, run on the master's datagrams alone. |
| `Ptp.Negotiate` | src/timing/ptp/flows/bmca.rs:10-172 | The remote is that of the master's first Announce before the deadline, or the silent default, and we are master exactly when our priority is the smaller number. |
| `Clocks.NtpBounds` | src/timing/clock.rs:37-45 | Within the era the timestamp is the true time rounded down by less than one unit of 2^-32 seconds. |
| `Clocks.NtpStrictlyIncreasing` | src/timing/clock.rs:37-45 | Within the era later nanoseconds have strictly later timestamps. |
| `Clocks.NtpRoundTrip` | src/timing/clock.rs:37-45 | The nanoseconds are recovered exactly by rounding up. |
| `Clocks.PtpFractionIsNtpFraction` | src/audio/rtp/sender.rs:286-290 | The 64-bit fraction in a PTP sync packet never overflows and equals the 128-bit one of `unix_to_ntp`. |
| `Discovery.KeepsAllAndAddsOnce` | src/discovery/parser.rs:328-333 | Merged addresses are the AirPlay ones in their order, then addresses of the RAOP record not among them, each once; none is lost or invented. |
| `Discovery.AddsInOrder` | src/discovery/parser.rs:328-333 | The added addresses come in the order in which the RAOP record first has them. |
| `Discovery.MergeIdempotent` | src/discovery/parser.rs:327-393 | Merging a record with itself changes no field. |
| `Discovery.MergeAbsorbsRaop` | src/discovery/parser.rs:327-393 | Merging the RAOP record in again changes no field. |
| `Discovery.MergeAbsorbsAirplay` | src/discovery/parser.rs:327-393 | Nor does merging the AirPlay record in again. |
| `Discovery.HandleUpdates` | src/discovery/browser.rs:91-145 | What an event does to one device's record does not depend on any other device. |
| `Discovery.Converges` | src/discovery/browser.rs:91-145 | With unchanging announcements a and r, after every sequence of events, removals included, the record is absent, a, r or merge(a, r), depending only on which were heard since the last RAOP removal. |
| `Discovery.BothMerge` | src/discovery/browser.rs:91-121 | Both announcements, in any order and with any repeats, and no removal: the record is merge(a, r). |
| `Discovery.RecordReflects` | src/discovery/browser.rs:91-145 | With changing announcements, in every run: the record's addresses are all those heard since the last removal, its RAOP fields are those of the latest RAOP announcement, and the other fields follow the latest AirPlay announcement. |
| `Discovery.FieldsFallBack` | src/discovery/parser.rs:338-369 | Model, key, versions, status flags and password in every run: what the latest AirPlay announcement that has the field says since the last removal, and if none does, what the first RAOP announcement that has it says. |
| `Discovery.SubscribersKnowAll` | src/discovery/browser.rs:91-145 | A subscriber that goes by the notifications alone knows, after every run, exactly the devices there are; nothing is added twice, and nothing unknown is updated or removed. |
| `Discovery.MergeDeviceInfo` | src/discovery/parser.rs:327-393 | The address loop and the field choices compute the merge of the specification. |
| `Discovery.ServiceBrowser.HandleServiceEvent` | src/discovery/browser.rs:91-145 | Map and notification after an event are those of the specification; the removal of an AirPlay service changes nothing. |

## Left out

- Sockets, tokio tasks, channel internals, the mDNS daemon, thread priorities: input and output.
- ChaCha20-Poly1305, SHA-512, HKDF, ALAC and the resampler: function parameters. A resampler that cannot be set up counts as one that fails on the first frame.
- Proving the RFC 5054 modulus prime: a hypothesis of the theorems.
- The server side of SRP and the accessory's message handling are written from RFC 5054 and RFC 2945, not from a file of the repository.
- Floating point: fill levels are compared as exact fractions, which at the capacities in use gives the same answers; dithering, volume and jitter statistics are not modelled.
- Counters that only report (`position_samples`, `total_samples_written`, `total_samples_read`) and all logging.
- 64-bit counters and timestamps of the encoder, the streamer and the control cipher are unbounded; the nonce takes the cipher's counter modulo 2^64. A message total of 2^64 bytes or more, which would overflow `usize`, is not modelled.
- StreamerSync.SyncCadence: asks that sample rate plus packet size fit 32 bits, as they do for both sample rates the library has.
- StreamerDrain.Drains: starts from Streaming, without pauses, with ciphers that do not fail and a sender thread that takes every message; for a stream that ends while Buffering see `StreamerDrain.EndsIffEnough`.
- Streamers.AudioStreamer.RunOnce: the branch without a sender thread, in which the loop itself sends the packets and paces itself, is not modelled; it is entered only when no sender has a data socket to clone. The streamer holds its RTP senders as values, so sharing of a sender object between streamers is not captured.
- `stop` and a second `start_live` on the same streamer. A missing decoder or encoder cannot occur within a run, because `start_live` sets both.
- Pipelines.SocketsGetTheLog: the messages arrive in order, as the channel delivers them, and every sender has its socket; a sender without one would shift the targets after it. A socket that refuses a packet is logged and passed over by the program, and counts as served here.
- SenderThreads.RunIsSpaced: assumes a monotone clock and sleeps that do not end before their deadline.
- Termination of the sender thread: its paused loop ignores disconnection, so none is claimed.
- The periodic Announce and Signaling messages a PTP slave sends, and the retries of the negotiation.
- PTP sequence ids are sent but never matched by the program; nothing is claimed about stale responses.
- RtspResponses.ParsesWire: if several keys of one response differ only in letter case, which of them `header` finds is left open, as it is by the hash map; well-formed responses have one Content-Length.
- Text parsing of features, versions, MAC addresses and TXT records: `Discovery.ServiceBrowser.HandleServiceEvent` takes the parsed record, or none.
- Plist bodies, `Connection`, `GroupSession` and `AirPlayClient`: network sequencing around the engines modelled here.
