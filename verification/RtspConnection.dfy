/** The RTSP connection: what it sends, and how it finds the end of what it receives. */
module RtspConnections {
  import opened Wrappers
  import opened ByteStrings
  import opened RtspText
  import opened ControlCiphers
  import RtspRequests
  import RtspReaders
  import RtspResponses
  import Sequences

  /** Waiting: the stream does not hold the whole message yet, so the reader is still blocked. */
  datatype Reading = Received(data: Bytes, rest: Bytes) | Waiting | Rejected

  // ----- Completeness -----

  /** The length of the message at the front of the data, once all of it is there. */
  function Complete(data: Bytes): (r: Option<nat>)
    ensures r.Some? ==> r.value <= |data|
  {
    match FindTerminator(data)
    case None => None
    case Some(end) =>
      if end > |data| then None
      else
        var total := end + 4 + DeclaredLength(data[..end]);
        if |data| >= total then Some(total) else None
  }

  /** A message whose header declares exactly the bytes that follow it. */
  ghost predicate SelfDelimiting(msg: Bytes) {
    match FindTerminator(msg)
    case None => false
    case Some(end) => end <= |msg| && end + 4 + DeclaredLength(msg[..end]) == |msg|
  }

  /** No proper prefix of a self-delimiting message is taken for a whole one. */
  lemma CompleteExactlyAtTheEnd(msg: Bytes, k: nat)
    requires SelfDelimiting(msg) && k <= |msg|
    ensures Complete(msg[..k]) == if k == |msg| then Some(k) else None
  {
    TerminatorOfPrefix(msg, k);
    var end := FindTerminator(msg).value;
    assert msg[..|msg|] == msg;
    if end + 4 <= k {
      assert msg[..k][..end] == msg[..end];
    }
  }

  // ----- The encrypted reader -----

  /** The test the reader makes after every block: the message length, once it is all there. */
  type Completeness = Bytes -> Option<nat>

  function Truncate(data: Bytes, n: nat): Bytes {
    if n <= |data| then data[..n] else data
  }

  /** What the reader returns, and its decrypt counter afterwards. */
  function ReadBlocks(complete: Completeness, aead: Aead, key: Bytes, counter: nat, wire: Bytes, data: Bytes)
    : (Reading, nat)
    decreases |wire|
  {
    if |wire| < 2 then (Waiting, counter)
    else
      var blockLen := FromU16Le(wire[..2]);
      var end := 2 + blockLen + TAG_LENGTH;
      if |wire| < end then (Waiting, counter)
      else
        var plain := DecryptBlock(aead, key, counter, wire[2..end], blockLen);
        if plain.Err? then (Rejected, counter)
        else
          var data' := data + plain.value;
          var total := complete(data');
          if total.Some? then (Received(Truncate(data', total.value), wire[end..]), counter + 1)
          else ReadBlocks(complete, aead, key, counter + 1, wire[end..], data')
  }

  ghost predicate NonEmpty(blocks: seq<Block>) {
    blocks != [] && forall k :: 0 <= k < |blocks| ==> blocks[k] != []
  }

  /** The completeness test succeeds with the last block, for the whole data, and not before. */
  ghost predicate StopsAtEnd(complete: Completeness, data: Bytes, blocks: seq<Block>)
    requires blocks != []
    decreases |blocks|
  {
    var data' := data + blocks[0];
    if |blocks| == 1 then complete(data') == Some(|data'|)
    else complete(data') == None && StopsAtEnd(complete, data', blocks[1..])
  }

  /** The first step of reading a sealed sequence of blocks. */
  lemma ReadFirst(complete: Completeness, aead: Aead, key: Bytes, counter: nat, blocks: seq<Block>,
                  data: Bytes, rest: Bytes)
    requires Lawful(aead) && blocks != [] && SealBlocks(aead, key, counter, blocks).Some?
    ensures SealBlocks(aead, key, counter + 1, blocks[1..]).Some?
    ensures
      var data' := data + blocks[0];
      var wire := SealBlocks(aead, key, counter + 1, blocks[1..]).value + rest;
      var total := complete(data');
      ReadBlocks(complete, aead, key, counter, SealBlocks(aead, key, counter, blocks).value + rest, data)
      == if total.Some? then (Received(Truncate(data', total.value), wire), counter + 1)
         else ReadBlocks(complete, aead, key, counter + 1, wire, data')
  {
    var first := SealBlock(aead, key, counter, blocks[0]).value;
    var more := SealBlocks(aead, key, counter + 1, blocks[1..]).value;
    assert (first + more) + rest == first + (more + rest);
    SealedBlockOpens(aead, key, counter, blocks[0], more + rest);
  }

  lemma JoinCons(data: Bytes, blocks: seq<Block>)
    requires blocks != []
    ensures data + Join(blocks) == (data + blocks[0]) + Join(blocks[1..])
    ensures |blocks| == 1 ==> data + Join(blocks) == data + blocks[0]
  {
    Sequences.Associative(data, blocks[0], Join(blocks[1..]));
    if |blocks| == 1 {
      assert Join(blocks[1..]) == [];
      assert (data + blocks[0]) + [] == data + blocks[0];
    }
  }

  ghost predicate Delivers(result: (Reading, nat), data: Bytes, rest: Bytes, counter: nat) {
    result.0.Received? && result.0.data == data && result.0.rest == rest && result.1 == counter
  }

  /** A reader whose test succeeds at the end returns all the data, leaves everything after it
      unread, and has moved its counter by the number of blocks. */
  lemma {:induction false} ReadsToTheEnd(complete: Completeness, aead: Aead, key: Bytes, counter: nat,
                                         blocks: seq<Block>, data: Bytes, rest: Bytes)
    requires Lawful(aead) && blocks != [] && SealBlocks(aead, key, counter, blocks).Some?
    requires StopsAtEnd(complete, data, blocks)
    ensures Delivers(
      ReadBlocks(complete, aead, key, counter, SealBlocks(aead, key, counter, blocks).value + rest, data),
      data + Join(blocks), rest, counter + |blocks|)
    decreases |blocks|
  {
    var data' := data + blocks[0];
    ReadFirst(complete, aead, key, counter, blocks, data, rest);
    JoinCons(data, blocks);
    if |blocks| == 1 {
      assert blocks[1..] == [] && [] + rest == rest;
    } else {
      ReadsToTheEnd(complete, aead, key, counter + 1, blocks[1..], data', rest);
    }
  }

  /** Conversely, data that some cutting into blocks delivers whole passes the test as a whole. */
  lemma {:induction false} DeliveredWhole(complete: Completeness, aead: Aead, key: Bytes, counter: nat,
                                          blocks: seq<Block>, data: Bytes)
    requires Lawful(aead) && blocks != [] && SealBlocks(aead, key, counter, blocks).Some?
    requires NonEmpty(blocks)
    requires ReadBlocks(complete, aead, key, counter, SealBlocks(aead, key, counter, blocks).value + [], data).0
             == Received(data + Join(blocks), [])
    ensures
      var whole := data + Join(blocks);
      complete(whole).Some? && complete(whole).value >= |whole|
    decreases |blocks|
  {
    var data' := data + blocks[0];
    ReadFirst(complete, aead, key, counter, blocks, data, []);
    JoinCons(data, blocks);
    if |blocks| == 1 {
      NothingToRead(complete, aead, key, counter, data');
    } else {
      assert blocks[1] != [];
      JoinCons(data', blocks[1..]);
      assert |data + Join(blocks)| > |data'|;
      assert complete(data').None?;
      DeliveredWhole(complete, aead, key, counter + 1, blocks[1..], data');
    }
  }

  lemma NothingToRead(complete: Completeness, aead: Aead, key: Bytes, counter: nat, data: Bytes)
    ensures ReadBlocks(complete, aead, key, counter + 1, [] + [], data) == (Waiting, counter + 1)
  {}

  /** The first block completes a self-delimiting message only if it is the last one. */
  lemma FirstBlockCompletes(data: Bytes, blocks: seq<Block>)
    requires NonEmpty(blocks) && SelfDelimiting(data + Join(blocks))
    ensures
      var data' := data + blocks[0];
      Complete(data') == if |blocks| == 1 then Some(|data'|) else None
  {
    var msg, data' := data + Join(blocks), data + blocks[0];
    JoinCons(data, blocks);
    assert msg[..|data'|] == data';
    if |blocks| > 1 {
      assert blocks[1] != [];
      JoinCons(data', blocks[1..]);
    }
    CompleteExactlyAtTheEnd(msg, |data'|);
  }

  lemma {:induction false} SelfDelimitingStops(data: Bytes, blocks: seq<Block>)
    requires NonEmpty(blocks) && SelfDelimiting(data + Join(blocks))
    ensures StopsAtEnd(Complete, data, blocks)
    decreases |blocks|
  {
    FirstBlockCompletes(data, blocks);
    if |blocks| > 1 {
      JoinCons(data, blocks);
      SelfDelimitingStops(data + blocks[0], blocks[1..]);
    }
  }

  lemma StopsFromScratch(blocks: seq<Block>)
    requires NonEmpty(blocks) && SelfDelimiting(Join(blocks))
    ensures StopsAtEnd(Complete, [], blocks)
  {
    assert [] + Join(blocks) == Join(blocks);
    SelfDelimitingStops([], blocks);
  }

  /** The reader as the connection runs it. */
  function ReadEncrypted(aead: Aead, key: Bytes, counter: nat, wire: Bytes): (Reading, nat) {
    ReadBlocks(Complete, aead, key, counter, wire, [])
  }

  /** However a self-delimiting message is cut into non-empty blocks, the reader returns exactly it. */
  lemma Reassembles(aead: Aead, key: Bytes, counter: nat, blocks: seq<Block>, rest: Bytes)
    requires Lawful(aead) && NonEmpty(blocks) && SelfDelimiting(Join(blocks))
    requires SealBlocks(aead, key, counter, blocks).Some?
    ensures Delivers(ReadEncrypted(aead, key, counter, SealBlocks(aead, key, counter, blocks).value + rest),
                     Join(blocks), rest, counter + |blocks|)
  {
    StopsFromScratch(blocks);
    assert [] + Join(blocks) == Join(blocks);
    ReadsToTheEnd(Complete, aead, key, counter, blocks, [], rest);
  }

  /** And only a self-delimiting message is ever delivered whole. */
  lemma OnlySelfDelimiting(aead: Aead, key: Bytes, counter: nat, blocks: seq<Block>)
    requires Lawful(aead) && NonEmpty(blocks) && SealBlocks(aead, key, counter, blocks).Some?
    requires ReadEncrypted(aead, key, counter, SealBlocks(aead, key, counter, blocks).value).0
             == Received(Join(blocks), [])
    ensures SelfDelimiting(Join(blocks))
  {
    var wire := SealBlocks(aead, key, counter, blocks).value;
    assert wire + [] == wire && [] + Join(blocks) == Join(blocks);
    DeliveredWhole(Complete, aead, key, counter, blocks, []);
  }

  // ----- Whole runs of messages over one pair of ciphers -----

  datatype Sent = Sent(wire: Bytes, counter: nat)

  /** One end of the channel: a counter and a message to the wire and the next counter. */
  type Sealer = (nat, Bytes) -> Option<Sent>

  /** The other end: a counter and the wire to what is read and the next counter. */
  type Reader = (nat, Bytes) -> (Reading, nat)

  /** The wire of several messages sent one after the other, unless one cannot be sent. */
  function SendAll(seal: Sealer, counter: nat, msgs: seq<Bytes>): Option<Sent>
    decreases msgs
  {
    if msgs == [] then Some(Sent([], counter))
    else
      var first := seal(counter, msgs[0]);
      if first.None? then None
      else
        var more := SendAll(seal, first.value.counter, msgs[1..]);
        if more.None? then None
        else Some(Sent(first.value.wire + more.value.wire, more.value.counter))
  }

  datatype Read = Read(msgs: seq<Bytes>, rest: Bytes, counter: nat)

  /** The messages that n runs of the reader return, the unread rest, and the counter afterwards. */
  function ReadAll(read: Reader, counter: nat, wire: Bytes, n: nat): Option<Read>
    decreases n
  {
    if n == 0 then Some(Read([], wire, counter))
    else
      var (first, next) := read(counter, wire);
      if !first.Received? then None
      else
        var more := ReadAll(read, next, first.rest, n - 1);
        if more.None? then None
        else Some(Read([first.data] + more.value.msgs, more.value.rest, more.value.counter))
  }

  /** Whatever the counter, this message is read back exactly, and both counters move alike. */
  ghost predicate Faithful(seal: Sealer, read: Reader, msg: Bytes) {
    forall counter: nat, rest: Bytes ::
      seal(counter, msg).Some? ==>
        Delivers(read(counter, seal(counter, msg).value.wire + rest), msg, rest, seal(counter, msg).value.counter)
  }

  lemma {:induction false} FaithfulRuns(seal: Sealer, read: Reader, counter: nat, msgs: seq<Bytes>, rest: Bytes)
    requires forall k :: 0 <= k < |msgs| ==> Faithful(seal, read, msgs[k])
    requires SendAll(seal, counter, msgs).Some?
    ensures
      var sent := SendAll(seal, counter, msgs).value;
      ReadAll(read, counter, sent.wire + rest, |msgs|) == Some(Read(msgs, rest, sent.counter))
    decreases |msgs|
  {
    if msgs == [] {
      assert [] + rest == rest;
    } else {
      var first := seal(counter, msgs[0]).value;
      var more := SendAll(seal, first.counter, msgs[1..]).value;
      assert (first.wire + more.wire) + rest == first.wire + (more.wire + rest);
      assert Faithful(seal, read, msgs[0]);
      assert Delivers(read(counter, first.wire + (more.wire + rest)), msgs[0], more.wire + rest, first.counter);
      FaithfulRuns(seal, read, first.counter, msgs[1..], rest);
      assert [msgs[0]] + msgs[1..] == msgs;
    }
  }

  /** A control cipher writing, and the connection's reader with the matching key. */
  function SealWith(aead: Aead, key: Bytes): Sealer {
    (counter: nat, msg: Bytes) =>
      match Encrypt(aead, key, counter, msg)
      case Err(_) => None
      case Ok(wire) => Some(Sent(wire, counter + |Chunks(msg)|))
  }

  function ReadWith(aead: Aead, key: Bytes): Reader {
    (counter: nat, wire: Bytes) => ReadEncrypted(aead, key, counter, wire)
  }

  lemma ReadsOneMessage(aead: Aead, key: Bytes, counter: nat, msg: Bytes, rest: Bytes)
    requires Lawful(aead) && SelfDelimiting(msg) && Encrypt(aead, key, counter, msg).Ok?
    ensures Delivers(ReadEncrypted(aead, key, counter, Encrypt(aead, key, counter, msg).value + rest),
                     msg, rest, counter + |Chunks(msg)|)
  {
    ChunksJoin(msg);
    Reassembles(aead, key, counter, Chunks(msg), rest);
  }

  lemma SelfDelimitingIsFaithful(aead: Aead, key: Bytes, msg: Bytes)
    requires Lawful(aead) && SelfDelimiting(msg)
    ensures Faithful(SealWith(aead, key), ReadWith(aead, key), msg)
  {
    forall counter: nat, rest: Bytes | SealWith(aead, key)(counter, msg).Some?
      ensures Delivers(ReadEncrypted(aead, key, counter, Encrypt(aead, key, counter, msg).value + rest),
                       msg, rest, counter + |Chunks(msg)|)
    {
      ReadsOneMessage(aead, key, counter, msg, rest);
    }
  }

  /** Every message of a run is recovered byte for byte, and the two counters end equal. */
  lemma RunRoundTrip(aead: Aead, key: Bytes, counter: nat, msgs: seq<Bytes>, rest: Bytes)
    requires Lawful(aead) && SendAll(SealWith(aead, key), counter, msgs).Some?
    requires AllSelfDelimiting(msgs)
    ensures
      var sent := SendAll(SealWith(aead, key), counter, msgs).value;
      ReadAll(ReadWith(aead, key), counter, sent.wire + rest, |msgs|) == Some(Read(msgs, rest, sent.counter))
  {
    forall k | 0 <= k < |msgs|
      ensures Faithful(SealWith(aead, key), ReadWith(aead, key), msgs[k])
    {
      SelfDelimitingIsFaithful(aead, key, msgs[k]);
    }
    FaithfulRuns(SealWith(aead, key), ReadWith(aead, key), counter, msgs, rest);
  }

  /** A printed request can be told apart from what follows it exactly when it has a body or its
      own headers declare no length. */
  lemma RequestIsSelfDelimiting(r: RtspRequests.RtspRequest, cseq: nat)
    requires RtspRequests.WellFormed(r)
    ensures SelfDelimiting(RtspRequests.Serialized(r, cseq))
            <==> r.body.Some? || RtspRequests.SuppliedLength(r.headers) == 0
  {
    var ls, body := RtspRequests.RequestLines(r, cseq), RtspRequests.BodyBytes(r.body);
    RtspRequests.RequestLinesAreClean(r, cseq);
    RtspRequests.RequestDeclares(r, cseq);
    LinesDelimit(ls, body);
  }

  /** Requests printed one after the other, numbered from `cseq` on. */
  function Printed(requests: seq<RtspRequests.RtspRequest>, cseq: nat): (msgs: seq<Bytes>)
    ensures |msgs| == |requests|
    ensures forall k :: 0 <= k < |msgs| ==> msgs[k] == RtspRequests.Serialized(requests[k], cseq + k)
  {
    seq(|requests|, k requires 0 <= k < |requests| => RtspRequests.Serialized(requests[k], cseq + k))
  }

  /** A caller-visible condition: the request says how long it is, or has nothing after its header. */
  ghost predicate Recoverable(r: RtspRequests.RtspRequest) {
    RtspRequests.WellFormed(r) && (r.body.Some? || RtspRequests.SuppliedLength(r.headers) == 0)
  }

  ghost predicate AllSelfDelimiting(msgs: seq<Bytes>) {
    forall k :: 0 <= k < |msgs| ==> SelfDelimiting(msgs[k])
  }

  lemma PrintedOne(r: RtspRequests.RtspRequest, cseq: nat, msg: Bytes)
    requires Recoverable(r) && msg == RtspRequests.Serialized(r, cseq)
    ensures SelfDelimiting(msg)
  {
    RequestIsSelfDelimiting(r, cseq);
  }

  lemma PrintedAreSelfDelimiting(requests: seq<RtspRequests.RtspRequest>, cseq: nat)
    requires forall k :: 0 <= k < |requests| ==> Recoverable(requests[k])
    ensures AllSelfDelimiting(Printed(requests, cseq))
  {
    var msgs := Printed(requests, cseq);
    forall k | 0 <= k < |msgs|
      ensures SelfDelimiting(msgs[k])
    {
      PrintedOne(requests[k], cseq + k, msgs[k]);
    }
  }

  /** A whole run of encrypted requests is read back one by one, byte for byte. */
  lemma RequestsAreRecovered(aead: Aead, key: Bytes, counter: nat,
                             requests: seq<RtspRequests.RtspRequest>, cseq: nat, rest: Bytes)
    requires Lawful(aead) && SendAll(SealWith(aead, key), counter, Printed(requests, cseq)).Some?
    requires forall k :: 0 <= k < |requests| ==> Recoverable(requests[k])
    ensures
      var sent := SendAll(SealWith(aead, key), counter, Printed(requests, cseq)).value;
      ReadAll(ReadWith(aead, key), counter, sent.wire + rest, |requests|)
      == Some(Read(Printed(requests, cseq), rest, sent.counter))
  {
    PrintedAreSelfDelimiting(requests, cseq);
    RunRoundTrip(aead, key, counter, Printed(requests, cseq), rest);
  }

  /** The length the first readable Content-Length of these lines declares, or 0. */
  function Declared(ls: seq<Bytes>): nat {
    match FindLength(ls) case None => 0 case Some(n) => n
  }

  lemma LinesDelimit(ls: seq<Bytes>, body: Bytes)
    requires ls != [] && AllClean(ls)
    ensures SelfDelimiting(HeaderText(ls) + Crlf() + body)
            <==> Declared(ls) == |body|
  {
    HeaderEnds(ls, body);
    LinesOfHead(ls);
  }

  /** A well-formed response is self-delimiting too. */
  lemma ResponseIsSelfDelimiting(w: RtspResponses.WireResponse)
    requires RtspResponses.WellFormed(w)
    ensures SelfDelimiting(RtspResponses.WireBytes(w))
  {
    RtspResponses.TextLength(w);
    LinesDelimit(RtspResponses.ResponseLines(w), w.body);
  }

  // ----- The plaintext reader -----

  /** Reads lines up to and including the empty one; each line must be text. */
  function ReadHeader(stream: Bytes, data: Bytes): Reading
    decreases |stream|
  {
    var k := IndexOf(stream, LF);
    if k == |stream| then Waiting
    else
      var line := stream[..k + 1];
      if !ValidUtf8(line) then Rejected
      else if line == Crlf() then Received(data + line, stream[k + 1..])
      else ReadHeader(stream[k + 1..], data + line)
  }

  function ReadPlain(stream: Bytes): Reading {
    match ReadHeader(stream, [])
    case Waiting => Waiting
    case Rejected => Rejected
    case Received(text, rest) =>
      var n := DeclaredLength(text);
      if n > |rest| then Waiting else Received(text + rest[..n], rest[n..])
  }

  lemma ReadOneLine(line: Bytes, more: Bytes, data: Bytes)
    requires Clean(line) && ValidUtf8(line)
    ensures ReadHeader(line + Crlf() + more, data) == ReadHeader(more, data + (line + Crlf()))
  {
    var stream := line + Crlf() + more;
    var withCr := line + [CR];
    assert stream == withCr + [LF] + more;
    IndexOfConcat(withCr, LF, more);
    var full := line + Crlf();
    assert stream[..|full|] == full && stream[|full|..] == more;
    AsciiIsValid(Crlf());
    ValidUtf8Concat(line, Crlf());
  }

  lemma ReadEmptyLine(more: Bytes, data: Bytes)
    ensures ReadHeader(Crlf() + more, data) == Received(data + Crlf(), more)
  {
    var stream := Crlf() + more;
    assert stream == [CR] + [LF] + more;
    IndexOfConcat([CR], LF, more);
    assert stream[..2] == Crlf() && stream[2..] == more;
    AsciiIsValid(Crlf());
  }

  lemma {:induction false} ReadsHeaderLines(ls: seq<Bytes>, more: Bytes, data: Bytes)
    requires AllClean(ls) && AllValidUtf8(ls)
    ensures ReadHeader(HeaderText(ls) + (Crlf() + more), data) == Received(data + HeaderText(ls) + Crlf(), more)
    decreases |ls|
  {
    if ls == [] {
      assert HeaderText(ls) + (Crlf() + more) == Crlf() + more && data + HeaderText(ls) == data;
      ReadEmptyLine(more, data);
    } else {
      HeaderTextStep(ls, Crlf() + more);
      ReadOneLine(ls[0], HeaderText(ls[1..]) + (Crlf() + more), data);
      ReadsHeaderLines(ls[1..], more, data + (ls[0] + Crlf()));
      assert data + (ls[0] + Crlf()) + HeaderText(ls[1..]) == data + HeaderText(ls);
    }
  }

  lemma DeclaredWithEmptyLine(ls: seq<Bytes>)
    requires AllClean(ls)
    ensures DeclaredLength(HeaderText(ls) + Crlf()) == Declared(ls)
  {
    LinesOfHeaderText(ls, Crlf());
    assert Crlf()[2..] == [];
    var empty: Bytes := [];
    assert Lines(Crlf()) == [empty];
    FindLengthOfOne(empty);
    FindLengthConcat(ls, [empty]);
  }

  /** Whatever follows, a message of clean lines is returned whole exactly when they declare its body. */
  lemma ReadsPlainIff(ls: seq<Bytes>, body: Bytes, rest: Bytes)
    requires AllClean(ls) && AllValidUtf8(ls)
    ensures ReadPlain(HeaderText(ls) + Crlf() + body + rest) == Received(HeaderText(ls) + Crlf() + body, rest)
            <==> Declared(ls) == |body|
  {
    var text := HeaderText(ls) + Crlf();
    Sequences.Associative(text, body, rest);
    Sequences.Associative(HeaderText(ls), Crlf(), body + rest);
    ReadsHeaderLines(ls, body + rest, []);
    assert [] + HeaderText(ls) + Crlf() == text;
    DeclaredWithEmptyLine(ls);
    assert (body + rest)[..|body|] == body && (body + rest)[|body|..] == rest;
  }

  /** Both readers, and the encrypted one under every split into non-empty blocks, return any message of clean
      text lines whose body is as long as its lines declare. */
  lemma BothReadersReturn(ls: seq<Bytes>, body: Bytes, aead: Aead, key: Bytes, counter: nat,
                          blocks: seq<Block>, rest: Bytes)
    requires ls != [] && AllClean(ls) && AllValidUtf8(ls) && Declared(ls) == |body| && Lawful(aead)
    requires NonEmpty(blocks) && Join(blocks) == HeaderText(ls) + Crlf() + body
    requires SealBlocks(aead, key, counter, blocks).Some?
    ensures ReadPlain(Join(blocks) + rest) == Received(Join(blocks), rest)
    ensures Delivers(ReadEncrypted(aead, key, counter, SealBlocks(aead, key, counter, blocks).value + rest),
                     Join(blocks), rest, counter + |blocks|)
  {
    ReadsPlainIff(ls, body, rest);
    LinesDelimit(ls, body);
    Reassembles(aead, key, counter, blocks, rest);
  }

  /** The plaintext reader and, under every split into non-empty blocks, the encrypted reader return the very
      bytes of a well-formed response, and parsing them yields its status, fields and body. */
  lemma BothReadersAgree(w: RtspResponses.WireResponse, aead: Aead, key: Bytes, counter: nat,
                         blocks: seq<Block>, rest: Bytes)
    requires RtspResponses.WellFormed(w) && Lawful(aead)
    requires NonEmpty(blocks) && Join(blocks) == RtspResponses.WireBytes(w)
    requires SealBlocks(aead, key, counter, blocks).Some?
    ensures ReadPlain(RtspResponses.WireBytes(w) + rest) == Received(RtspResponses.WireBytes(w), rest)
    ensures Delivers(ReadEncrypted(aead, key, counter, SealBlocks(aead, key, counter, blocks).value + rest),
                     RtspResponses.WireBytes(w), rest, counter + |blocks|)
    ensures
      var (code, reason) := RtspResponses.ParseStatusLine(w.statusLine).value;
      RtspResponses.Parsed(RtspResponses.WireBytes(w))
      == Ok(RtspResponses.RtspResponse(
              code, reason, RtspResponses.FieldMap(map[], RtspResponses.FieldsOf(w.lines)),
              if w.body == [] then None else Some(w.body)))
  {
    RtspResponses.TextLength(w);
    BothReadersReturn(RtspResponses.ResponseLines(w), w.body, aead, key, counter, blocks, rest);
    RtspResponses.ParsesWire(w);
  }

  // ----- Runs of the plaintext reader -----

  /** What is left when a reader takes `ahead` bytes more than it needs. */
  function Beyond(rest: Bytes, ahead: nat): Bytes {
    if ahead <= |rest| then rest[ahead..] else []
  }

  /** A reader of plaintext: a stream to a message and the rest. */
  type PlainReader = Bytes -> Reading

  datatype PlainRead = PlainRead(msgs: seq<Bytes>, rest: Bytes)

  /** What one read after the other returns, when each buffers so many bytes beyond its message. */
  function ReadPlainAll(read: PlainReader, stream: Bytes, aheads: seq<nat>): Option<PlainRead>
    decreases |aheads|
  {
    if aheads == [] then Some(PlainRead([], stream))
    else
      match read(stream)
      case Waiting => None
      case Rejected => None
      case Received(data, rest) =>
        match ReadPlainAll(read, Beyond(rest, aheads[0]), aheads[1..])
        case None => None
        case Some(more) => Some(PlainRead([data] + more.msgs, more.rest))
  }

  /** Whatever follows it, the reader returns this message. */
  ghost predicate PlainDelimited(read: PlainReader, msg: Bytes) {
    forall rest: Bytes :: read(msg + rest) == Received(msg, rest)
  }

  ghost predicate AllPlainDelimited(read: PlainReader, msgs: seq<Bytes>) {
    forall k :: 0 <= k < |msgs| ==> PlainDelimited(read, msgs[k])
  }

  /** No read takes a byte beyond its message, unless there is none. */
  ghost predicate NothingAhead(msgs: seq<Bytes>, rest: Bytes, aheads: seq<nat>)
    requires |msgs| == |aheads|
  {
    msgs == []
    || ((aheads[0] == 0 || Join(msgs[1..]) + rest == []) && NothingAhead(msgs[1..], rest, aheads[1..]))
  }

  lemma {:induction false} HeaderSplits(stream: Bytes, data: Bytes)
    requires ReadHeader(stream, data).Received?
    ensures |ReadHeader(stream, data).data| + |ReadHeader(stream, data).rest| == |data| + |stream|
    decreases |stream|
  {
    var k := IndexOf(stream, LF);
    var line := stream[..k + 1];
    if line != Crlf() { HeaderSplits(stream[k + 1..], data + line); }
  }

  /** What is returned and what is left are no more than what there was. */
  ghost predicate Splits(read: PlainReader) {
    forall stream :: read(stream).Received? ==> |read(stream).data| + |read(stream).rest| == |stream|
  }

  lemma PlainSplits()
    ensures Splits(ReadPlain)
  {
    forall stream | ReadPlain(stream).Received?
      ensures |ReadPlain(stream).data| + |ReadPlain(stream).rest| == |stream|
    {
      HeaderSplits(stream, []);
    }
  }

  /** A run returns no more bytes than there are. */
  lemma {:induction false} RunIsWithin(read: PlainReader, stream: Bytes, aheads: seq<nat>)
    requires Splits(read) && ReadPlainAll(read, stream, aheads).Some?
    ensures
      var r := ReadPlainAll(read, stream, aheads).value;
      |Join(r.msgs)| + |r.rest| <= |stream|
    decreases |aheads|
  {
    if aheads != [] {
      var rest := read(stream).rest;
      RunIsWithin(read, Beyond(rest, aheads[0]), aheads[1..]);
      var more := ReadPlainAll(read, Beyond(rest, aheads[0]), aheads[1..]).value;
      assert ([read(stream).data] + more.msgs)[1..] == more.msgs;
    }
  }

  lemma RunContinues(read: PlainReader, stream: Bytes, aheads: seq<nat>, first: Bytes, after: Bytes,
                     others: seq<Bytes>, rest: Bytes)
    requires aheads != [] && read(stream) == Received(first, after)
    ensures ReadPlainAll(read, stream, aheads) == Some(PlainRead([first] + others, rest))
            <==> ReadPlainAll(read, Beyond(after, aheads[0]), aheads[1..]) == Some(PlainRead(others, rest))
  {
    var more := ReadPlainAll(read, Beyond(after, aheads[0]), aheads[1..]);
    if more.Some? && [first] + more.value.msgs == [first] + others {
      assert ([first] + more.value.msgs)[1..] == more.value.msgs && ([first] + others)[1..] == others;
    }
  }

  /** Too few bytes cannot be read as these messages. */
  lemma TooFewBytes(read: PlainReader, stream: Bytes, aheads: seq<nat>, msgs: seq<Bytes>, rest: Bytes)
    requires Splits(read) && |stream| < |Join(msgs)| + |rest|
    ensures ReadPlainAll(read, stream, aheads) != Some(PlainRead(msgs, rest))
  {
    if ReadPlainAll(read, stream, aheads).Some? { RunIsWithin(read, stream, aheads); }
  }

  lemma BeyondIs(after: Bytes, ahead: nat)
    ensures if ahead == 0 || after == [] then Beyond(after, ahead) == after else |Beyond(after, ahead)| < |after|
  {}

  /** A run of plaintext messages is recovered exactly when nothing is buffered beyond any of them. */
  lemma {:induction false} PlainRunIff(read: PlainReader, msgs: seq<Bytes>, rest: Bytes, aheads: seq<nat>)
    requires Splits(read) && AllPlainDelimited(read, msgs) && |msgs| == |aheads|
    ensures ReadPlainAll(read, Join(msgs) + rest, aheads) == Some(PlainRead(msgs, rest))
            <==> NothingAhead(msgs, rest, aheads)
    decreases |msgs|
  {
    if msgs == [] {
      assert Join(msgs) + rest == rest;
    } else {
      var first, others := msgs[0], msgs[1..];
      var after := Join(others) + rest;
      Sequences.Associative(first, Join(others), rest);
      assert PlainDelimited(read, first);
      RunContinues(read, first + after, aheads, first, after, others, rest);
      assert [first] + others == msgs;
      BeyondIs(after, aheads[0]);
      if aheads[0] == 0 || after == [] {
        PlainRunIff(read, others, rest, aheads[1..]);
      } else {
        TooFewBytes(read, Beyond(after, aheads[0]), aheads[1..], others, rest);
      }
    }
  }

  /** Well-formed responses are such messages. */
  lemma ResponseIsPlainDelimited(w: RtspResponses.WireResponse)
    requires RtspResponses.WellFormed(w)
    ensures PlainDelimited(ReadPlain, RtspResponses.WireBytes(w))
  {
    RtspResponses.TextLength(w);
    forall rest: Bytes
      ensures ReadPlain(RtspResponses.WireBytes(w) + rest) == Received(RtspResponses.WireBytes(w), rest)
    {
      ReadsPlainIff(RtspResponses.ResponseLines(w), w.body, rest);
    }
  }

  function WireOfAll(ws: seq<RtspResponses.WireResponse>): (msgs: seq<Bytes>)
    ensures |msgs| == |ws| && forall k :: 0 <= k < |ws| ==> msgs[k] == RtspResponses.WireBytes(ws[k])
  {
    seq(|ws|, k requires 0 <= k < |ws| => RtspResponses.WireBytes(ws[k]))
  }

  /** A run of well-formed plaintext responses is recovered exactly when no read buffers beyond its response. */
  lemma ResponsesRecoveredIff(ws: seq<RtspResponses.WireResponse>, rest: Bytes, aheads: seq<nat>)
    requires (forall k :: 0 <= k < |ws| ==> RtspResponses.WellFormed(ws[k])) && |ws| == |aheads|
    ensures ReadPlainAll(ReadPlain, Join(WireOfAll(ws)) + rest, aheads) == Some(PlainRead(WireOfAll(ws), rest))
            <==> NothingAhead(WireOfAll(ws), rest, aheads)
  {
    PlainSplits();
    forall k | 0 <= k < |ws|
      ensures PlainDelimited(ReadPlain, WireOfAll(ws)[k])
    {
      ResponseIsPlainDelimited(ws[k]);
    }
    PlainRunIff(ReadPlain, WireOfAll(ws), rest, aheads);
  }

  // ----- The connection object -----

  datatype ReadError = TimedOut | InvalidData

  /** What is printed is read back. */
  lemma Legibly(r: RtspRequests.RtspRequest, cseq: nat)
    ensures RtspReaders.Legible(r) ==>
              RtspReaders.ReadRequest(RtspRequests.Serialized(r, cseq)) == Some((RtspReaders.Numbered(r, cseq), []))
  {
    if RtspReaders.Legible(r) {
      RtspReaders.RequestRoundTrip(r, cseq, []);
      assert RtspRequests.Serialized(r, cseq) + [] == RtspRequests.Serialized(r, cseq);
    }
  }

  class RtspConnection {
    var cseq: nat
    var cipher: ControlCipher?
    var inbox: Bytes
    var sessionHeaders: RtspRequests.Headers

    constructor ()
      ensures cseq == 0 && cipher == null && inbox == [] && sessionHeaders == map[]
    {
      cseq, cipher, inbox, sessionHeaders := 0, null, [], map[];
    }

    method AddSessionHeader(key: Bytes, value: Bytes)
      modifies this`sessionHeaders
      ensures sessionHeaders == old(sessionHeaders)[key := value]
    {
      sessionHeaders := sessionHeaders[key := value];
    }

    /** The outgoing half of a call: session headers, the next number, printing, encryption. */
    method Outgoing(request: RtspRequests.RtspRequest) returns (r: Result<Bytes, CipherError>)
      modifies this`cseq, cipher
      ensures cseq == old(cseq) + 1
      ensures
        var text := RtspRequests.Serialized(request.(headers := request.headers + sessionHeaders), cseq);
        if cipher == null then r == Ok(text)
        else
          && r == Encrypt(cipher.aead, cipher.writeKey, old(cipher.encryptCounter), text)
          && cipher.decryptCounter == old(cipher.decryptCounter)
          && (r.Ok? ==> cipher.encryptCounter == old(cipher.encryptCounter) + |Chunks(text)|)
      ensures
        var full := request.(headers := request.headers + sessionHeaders);
        RtspReaders.Legible(full) ==>
          RtspReaders.ReadRequest(RtspRequests.Serialized(full, cseq)) == Some((RtspReaders.Numbered(full, cseq), []))
    {
      var full := request.(headers := request.headers + sessionHeaders);
      cseq := cseq + 1;
      var text := RtspRequests.Serialize(full, cseq);
      Legibly(full, cseq);
      if cipher == null {
        return Ok(text);
      }
      AllSealed(cipher.aead, cipher.writeKey, cipher.encryptCounter, Chunks(text));
      r := cipher.EncryptAll(text);
    }

    method ReadEncryptedResponse() returns (r: Result<Bytes, ReadError>)
      requires cipher != null
      modifies this`inbox, cipher`decryptCounter
      ensures
        var (reading, counter) :=
          ReadEncrypted(cipher.aead, cipher.readKey, old(cipher.decryptCounter), old(inbox));
        && cipher.decryptCounter == counter
        && match reading
           case Received(data, rest) => r == Ok(data) && inbox == rest
           case Waiting => r == Err(TimedOut)
           case Rejected => r == Err(InvalidData)
    {
      var data: Bytes := [];
      while true
        invariant ReadEncrypted(cipher.aead, cipher.readKey, old(cipher.decryptCounter), old(inbox))
                  == ReadBlocks(Complete, cipher.aead, cipher.readKey, cipher.decryptCounter, inbox, data)
        decreases |inbox|
      {
        if |inbox| < 2 {
          return Err(TimedOut);
        }
        var blockLen := FromU16Le(inbox[..2]);
        var end := 2 + blockLen + TAG_LENGTH;
        if |inbox| < end {
          return Err(TimedOut);
        }
        var sealed := inbox[2..end];
        var plain := cipher.OpenBlock(sealed, blockLen);
        if plain.Err? {
          return Err(InvalidData);
        }
        inbox := inbox[end..];
        data := data + plain.value;
        var complete := Complete(data);
        if complete.Some? {
          return Ok(Truncate(data, complete.value));
        }
      }
    }

    /** `ahead` is how far the line reader has buffered beyond the response; it takes those bytes with it. */
    method ReadPlaintextResponse(ahead: nat) returns (r: Result<Bytes, ReadError>)
      modifies this`inbox
      ensures
        match ReadPlain(old(inbox))
        case Received(data, rest) =>
          r == Ok(data) && inbox == Beyond(rest, ahead)
        case Waiting => r == Err(TimedOut)
        case Rejected => r == Err(InvalidData)
    {
      var data: Bytes := [];
      var done := false;
      while !done
        invariant !done ==> ReadHeader(old(inbox), []) == ReadHeader(inbox, data)
        invariant done ==> ReadHeader(old(inbox), []) == Received(data, inbox)
        decreases !done, |inbox|
      {
        var k := IndexOf(inbox, LF);
        if k == |inbox| {
          return Err(TimedOut);
        }
        var line := inbox[..k + 1];
        if !ValidUtf8(line) {
          return Err(InvalidData);
        }
        inbox := inbox[k + 1..];
        data := data + line;
        done := line == Crlf();
      }
      var contentLength := DeclaredLength(data);
      if contentLength > 0 {
        if contentLength > |inbox| {
          return Err(TimedOut);
        }
        data := data + inbox[..contentLength];
        inbox := inbox[contentLength..];
      } else {
        assert data + inbox[..0] == data && inbox[0..] == inbox;
      }
      inbox := Beyond(inbox, ahead);
      r := Ok(data);
    }
  }
}
