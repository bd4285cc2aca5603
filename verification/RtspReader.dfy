/** An accessory that reads requests, written from the grammar of RTSP alone. */
module RtspReaders {
  import opened Wrappers
  import opened ByteStrings
  import opened RtspText
  import opened RtspRequests

  // ----- Lines and their parts -----

  /** A line, and what follows the CR and LF that end it. */
  function ReadLine(data: Bytes): (r: Option<(Bytes, Bytes)>)
    ensures r.Some? ==> |r.value.1| < |data|
  {
    if |data| < 2 then None
    else if data[0] == 13 && data[1] == 10 then Some(([], data[2..]))
    else
      match ReadLine(data[1..])
      case None => None
      case Some((line, rest)) => Some(([data[0]] + line, rest))
  }

  /** The lines up to the empty one, and what follows it. */
  function ReadLines(data: Bytes): Option<(seq<Bytes>, Bytes)>
    decreases |data|
  {
    match ReadLine(data)
    case None => None
    case Some((line, rest)) =>
      if line == [] then Some(([], rest))
      else
        match ReadLines(rest)
        case None => None
        case Some((lines, after)) => Some(([line] + lines, after))
  }

  /** The text before and after the first occurrence of a byte. */
  function Cut(text: Bytes, mark: byte): Option<(Bytes, Bytes)> {
    if text == [] then None
    else if text[0] == mark then Some(([], text[1..]))
    else
      match Cut(text[1..], mark)
      case None => None
      case Some((front, rest)) => Some(([text[0]] + front, rest))
  }

  function VerbOf(name: Bytes): Option<RtspMethod> {
    if name == Ascii("OPTIONS") then Some(Options)
    else if name == Ascii("SETUP") then Some(Setup)
    else if name == Ascii("RECORD") then Some(Record)
    else if name == Ascii("FLUSH") then Some(Flush)
    else if name == Ascii("TEARDOWN") then Some(Teardown)
    else if name == Ascii("SET_PARAMETER") then Some(SetParameter)
    else if name == Ascii("POST") then Some(Post)
    else if name == Ascii("GET") then Some(Get)
    else if name == Ascii("SETPEERS") then Some(SetPeers)
    else None
  }

  /** The verb and the URI of a first line: three words, the last of them RTSP/1.0. */
  function ReadStart(line: Bytes): Option<(RtspMethod, Bytes)> {
    match Cut(line, 32)
    case None => None
    case Some((name, rest)) =>
      match Cut(rest, 32)
      case None => None
      case Some((uri, version)) =>
        if version != [82, 84, 83, 80, 47, 49, 46, 48] || VerbOf(name).None? then None
        else Some((VerbOf(name).value, uri))
  }

  /** The headers of the lines: a key, a colon, a space and a value each, and no key twice. */
  function ReadHeaders(lines: seq<Bytes>): Option<map<Bytes, Bytes>> {
    if lines == [] then Some(map[])
    else
      match Cut(lines[0], 58)
      case None => None
      case Some((key, value)) =>
        match ReadHeaders(lines[1..])
        case None => None
        case Some(more) =>
          if key in more || value == [] || value[0] != 32 then None else Some(more[key := value[1..]])
  }

  /** A number in decimal digits. */
  function Number(text: Bytes): Option<nat> {
    if text == [] then None
    else
      var last := text[|text| - 1];
      if last < 48 || last > 57 then None
      else if |text| == 1 then Some(last - 48)
      else
        match Number(text[..|text| - 1])
        case None => None
        case Some(high) => Some(10 * high + (last - 48))
  }

  // ----- Requests -----

  datatype Numbered = Numbered(request: RtspRequest, cseq: nat)

  /** The body that the headers announce, if they do, and what follows it. */
  function ReadBody(headers: map<Bytes, Bytes>, data: Bytes): Option<(Option<Bytes>, Bytes)> {
    var key := Ascii("Content-Length");
    if key !in headers then Some((None, data))
    else
      match Number(headers[key])
      case None => None
      case Some(n) => if n > |data| then None else Some((Some(data[..n]), data[n..]))
  }

  /** The request at the front of a stream, and what follows it. */
  function ReadRequest(data: Bytes): (r: Option<(Numbered, Bytes)>) {
    match ReadLines(data)
    case None => None
    case Some((lines, after)) =>
      if lines == [] || ReadStart(lines[0]).None? || ReadHeaders(lines[1..]).None? then None
      else
        var (verb, uri) := ReadStart(lines[0]).value;
        var headers := ReadHeaders(lines[1..]).value;
        if Ascii("CSeq") !in headers || Number(headers[Ascii("CSeq")]).None? || ReadBody(headers, after).None? then
          None
        else
          var (body, rest) := ReadBody(headers, after).value;
          Some((Numbered(RtspRequest(verb, uri, headers - {Ascii("CSeq"), Ascii("Content-Length")}, body),
                         Number(headers[Ascii("CSeq")]).value), rest))
  }

  type RequestReader = Bytes -> Option<(Numbered, Bytes)>

  /** So many requests, one after the other, and what follows them. */
  function ReadRequests(read: RequestReader, data: Bytes, n: nat): Option<(seq<Numbered>, Bytes)>
    decreases n
  {
    if n == 0 then Some(([], data))
    else
      match read(data)
      case None => None
      case Some((first, after)) =>
        match ReadRequests(read, after, n - 1)
        case None => None
        case Some((more, rest)) => Some(([first] + more, rest))
  }

  // ----- Printing is undone -----

  /** What a request must be for its parts to be told apart; callers can see all of it. */
  ghost predicate Legible(r: RtspRequest) {
    && WellFormed(r) && SPACE !in r.uri
    && (forall k :: k in r.headers ==> COLON !in k)
    && Ascii("CSeq") !in r.headers && Ascii("Content-Length") !in r.headers
  }

  lemma {:induction false} ReadsLine(line: Bytes, rest: Bytes)
    requires LineSafe(line)
    ensures ReadLine(line + Crlf() + rest) == Some((line, rest))
  {
    var data := line + Crlf() + rest;
    if line == [] {
      assert data[2..] == rest;
    } else {
      assert data[1..] == line[1..] + Crlf() + rest;
      ReadsLine(line[1..], rest);
      assert [line[0]] + line[1..] == line;
    }
  }

  lemma {:induction false} ReadsLines(lines: seq<Bytes>, rest: Bytes)
    requires AllClean(lines)
    ensures ReadLines(HeaderText(lines) + (Crlf() + rest)) == Some((lines, rest))
  {
    var data := HeaderText(lines) + (Crlf() + rest);
    if lines == [] {
      assert data == [] + Crlf() + rest;
      ReadsLine([], rest);
    } else {
      HeaderTextStep(lines, Crlf() + rest);
      assert Clean(lines[0]);
      ReadsLine(lines[0], HeaderText(lines[1..]) + (Crlf() + rest));
      ReadsLines(lines[1..], rest);
      assert [lines[0]] + lines[1..] == lines;
    }
  }

  lemma {:induction false} CutAt(front: Bytes, mark: byte, rest: Bytes)
    requires mark !in front
    ensures Cut(front + [mark] + rest, mark) == Some((front, rest))
  {
    var text := front + [mark] + rest;
    if front != [] {
      assert text[1..] == front[1..] + [mark] + rest;
      CutAt(front[1..], mark, rest);
      assert [front[0]] + front[1..] == front;
    } else {
      assert text[1..] == rest;
    }
  }

  lemma VerbsAreNamed(verb: RtspMethod)
    ensures VerbOf(Ascii(MethodName(verb))) == Some(verb)
    ensures SPACE !in Ascii(MethodName(verb))
  {
    match verb {
      case Options =>
      case Setup => assert Ascii("SETUP")[0] == 83;
      case Record => assert Ascii("RECORD")[0] == 82;
      case Flush => assert Ascii("FLUSH")[0] == 70;
      case Teardown => assert Ascii("TEARDOWN")[0] == 84;
      case SetParameter => assert Ascii("SET_PARAMETER")[0] == 83;
      case Post => assert Ascii("POST")[0] == 80;
      case Get => assert Ascii("GET")[0] == 71;
      case SetPeers => assert Ascii("SETPEERS")[0] == 83;
    }
  }

  lemma VersionBytes()
    ensures Ascii(" RTSP/1.0") == [32, 82, 84, 83, 80, 47, 49, 46, 48]
  {}

  lemma ReadsStart(r: RtspRequest)
    requires SPACE !in r.uri
    ensures ReadStart(RequestLine(r)) == Some((r.verb, r.uri))
  {
    var name: Bytes, version: Bytes := Ascii(MethodName(r.verb)), [82, 84, 83, 80, 47, 49, 46, 48];
    VerbsAreNamed(r.verb);
    VersionBytes();
    assert RequestLine(r) == name + [SPACE] + (r.uri + [SPACE] + version);
    CutAt(name, SPACE, r.uri + [SPACE] + version);
    CutAt(r.uri, SPACE, version);
  }

  lemma {:induction false} ReadsDecimal(n: nat)
    ensures Number(Decimal(n)) == Some(n)
  {
    if n >= 10 {
      ReadsDecimal(n / 10);
      assert Decimal(n)[..|Decimal(n)| - 1] == Decimal(n / 10);
    }
  }

  lemma {:induction false} DigitsAreNumber(s: Bytes)
    requires s != []
    ensures DigitsValue(s) == Number(s)
  {
    if |s| == 1 {
      assert s[..0] == [];
    } else {
      DigitsAreNumber(s[..|s| - 1]);
    }
  }

  /** The library reads exactly the decimal numbers below a limit, with or without a plus sign. */
  lemma NumbersAreRead(s: Bytes, limit: nat)
    ensures
      var digits := if s != [] && s[0] == 43 then s[1..] else s;
      ParseUnsigned(s, limit)
      == match Number(digits) case None => None case Some(n) => if n < limit then Some(n) else None
  {
    var digits := if s != [] && s[0] == PLUS then s[1..] else s;
    if digits != [] { DigitsAreNumber(digits); }
  }

  /** A header line in front adds its key and value to what the others say. */
  lemma ReadsHeader(key: Bytes, value: Bytes, lines: seq<Bytes>)
    requires COLON !in key && ReadHeaders(lines).Some? && key !in ReadHeaders(lines).value
    ensures ReadHeaders([HeaderLine(key, value)] + lines) == Some(ReadHeaders(lines).value[key := value])
  {
    CutAt(key, COLON, [SPACE] + value);
    assert ([HeaderLine(key, value)] + lines)[1..] == lines;
  }

  lemma {:induction false} ReadsHeaderLines(headers: Headers, keys: set<Bytes>)
    requires keys <= headers.Keys && forall k :: k in keys ==> COLON !in k
    ensures ReadHeaders(HeaderLines(headers, keys)) == Some(map k | k in keys :: headers[k])
    decreases |keys|
  {
    if keys != {} {
      var k := First(keys);
      var others := keys - {k};
      ReadsHeaderLines(headers, others);
      ReadsHeader(k, headers[k], HeaderLines(headers, others));
      assert (map l | l in others :: headers[l])[k := headers[k]] == map l | l in keys :: headers[l];
    }
  }

  /** The headers a reader finds: the caller's, the length of a body, and the number. */
  function Found(r: RtspRequest, cseq: nat): map<Bytes, Bytes> {
    var own :=
      if r.body.None? then r.headers else r.headers[Ascii("Content-Length") := Decimal(|r.body.value|)];
    own[Ascii("CSeq") := Decimal(cseq)]
  }

  lemma NamesDiffer()
    ensures Ascii("CSeq") != Ascii("Content-Length")
    ensures COLON !in Ascii("CSeq") && COLON !in Ascii("Content-Length")
  {
    assert |Ascii("CSeq")| == 4;
  }

  lemma FindsOwnAndLength(r: RtspRequest)
    requires Legible(r)
    ensures
      var own := HeaderLines(r.headers, r.headers.Keys);
      ReadHeaders(LengthLines(r.body) + own)
      == Some(if r.body.None? then r.headers else r.headers[Ascii("Content-Length") := Decimal(|r.body.value|)])
  {
    var own := HeaderLines(r.headers, r.headers.Keys);
    ReadsHeaderLines(r.headers, r.headers.Keys);
    assert (map k | k in r.headers.Keys :: r.headers[k]) == r.headers;
    if r.body.Some? {
      NamesDiffer();
      ReadsHeader(Ascii("Content-Length"), Decimal(|r.body.value|), own);
    } else {
      assert LengthLines(r.body) + own == own;
    }
  }

  lemma FindsHeaders(r: RtspRequest, cseq: nat)
    requires Legible(r)
    ensures ReadHeaders([CseqLine(cseq)] + LengthLines(r.body) + HeaderLines(r.headers, r.headers.Keys))
            == Some(Found(r, cseq))
  {
    var own := HeaderLines(r.headers, r.headers.Keys);
    NamesDiffer();
    FindsOwnAndLength(r);
    ReadsHeader(Ascii("CSeq"), Decimal(cseq), LengthLines(r.body) + own);
    assert [CseqLine(cseq)] + LengthLines(r.body) + own == [CseqLine(cseq)] + (LengthLines(r.body) + own);
  }

  lemma ReadsBody(r: RtspRequest, cseq: nat, rest: Bytes)
    requires Legible(r)
    ensures ReadBody(Found(r, cseq), BodyBytes(r.body) + rest) == Some((r.body, rest))
  {
    NamesDiffer();
    if r.body.Some? {
      var body := r.body.value;
      ReadsDecimal(|body|);
      assert (body + rest)[..|body|] == body && (body + rest)[|body|..] == rest;
    } else {
      assert BodyBytes(r.body) + rest == rest;
    }
  }

  lemma ReadsParts(data: Bytes, lines: seq<Bytes>, after: Bytes, r: RtspRequest, headers: map<Bytes, Bytes>,
                   cseq: nat, rest: Bytes)
    requires ReadLines(data) == Some((lines, after)) && lines != []
    requires ReadStart(lines[0]) == Some((r.verb, r.uri)) && ReadHeaders(lines[1..]) == Some(headers)
    requires Ascii("CSeq") in headers && Number(headers[Ascii("CSeq")]) == Some(cseq)
    requires ReadBody(headers, after) == Some((r.body, rest))
    requires headers - {Ascii("CSeq"), Ascii("Content-Length")} == r.headers
    ensures ReadRequest(data) == Some((Numbered(r, cseq), rest))
  {}

  lemma FoundIs(r: RtspRequest, cseq: nat)
    requires Legible(r)
    ensures
      var found := Found(r, cseq);
      && Ascii("CSeq") in found && found[Ascii("CSeq")] == Decimal(cseq)
      && found - {Ascii("CSeq"), Ascii("Content-Length")} == r.headers
  {
    NamesDiffer();
  }

  /**
   * Whatever follows it, a printed request is read back whole: verb, URI, number, every header with its exact
   * value, and the body.
   */
  lemma RequestRoundTrip(r: RtspRequest, cseq: nat, rest: Bytes)
    requires Legible(r)
    ensures ReadRequest(Serialized(r, cseq) + rest) == Some((Numbered(r, cseq), rest))
  {
    var lines := RequestLines(r, cseq);
    var after := BodyBytes(r.body) + rest;
    RequestLinesAreClean(r, cseq);
    assert Serialized(r, cseq) + rest == HeaderText(lines) + (Crlf() + after);
    ReadsLines(lines, after);
    ReadsStart(r);
    assert lines[1..] == [CseqLine(cseq)] + LengthLines(r.body) + HeaderLines(r.headers, r.headers.Keys);
    FindsHeaders(r, cseq);
    FoundIs(r, cseq);
    ReadsDecimal(cseq);
    ReadsBody(r, cseq, rest);
    ReadsParts(Serialized(r, cseq) + rest, lines, after, r, Found(r, cseq), cseq, rest);
  }
}
