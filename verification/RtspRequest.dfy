/** RTSP requests and how they are printed. */
module RtspRequests {
  import opened Wrappers
  import opened ByteStrings
  import opened RtspText

  datatype RtspMethod = Options | Setup | Record | Flush | Teardown | SetParameter | Post | Get | SetPeers

  function MethodName(m: RtspMethod): string {
    match m
    case Options => "OPTIONS"
    case Setup => "SETUP"
    case Record => "RECORD"
    case Flush => "FLUSH"
    case Teardown => "TEARDOWN"
    case SetParameter => "SET_PARAMETER"
    case Post => "POST"
    case Get => "GET"
    case SetPeers => "SETPEERS"
  }

  type Headers = map<Bytes, Bytes>

  datatype RtspRequest = RtspRequest(verb: RtspMethod, uri: Bytes, headers: Headers, body: Option<Bytes>) {
    function Header(key: Bytes, value: Bytes): RtspRequest {
      this.(headers := headers[key := value])
    }

    function Body(bytes: Bytes): RtspRequest {
      this.(body := Some(bytes))
    }
  }

  // ----- Header keys in byte order -----

  predicate LexLe(s: Bytes, t: Bytes) {
    s == [] || (t != [] && (s[0] < t[0] || (s[0] == t[0] && LexLe(s[1..], t[1..]))))
  }

  lemma {:induction false} LexTotal(s: Bytes, t: Bytes)
    ensures LexLe(s, t) || LexLe(t, s)
    ensures LexLe(s, t) && LexLe(t, s) ==> s == t
  {
    if s != [] && t != [] {
      LexTotal(s[1..], t[1..]);
      if s[0] == t[0] && s[1..] == t[1..] {
        assert s == [s[0]] + s[1..] && t == [t[0]] + t[1..];
      }
    }
  }

  lemma {:induction false} LexTransitive(s: Bytes, t: Bytes, u: Bytes)
    requires LexLe(s, t) && LexLe(t, u)
    ensures LexLe(s, u)
  {
    if s != [] && s[0] == t[0] == u[0] { LexTransitive(s[1..], t[1..], u[1..]); }
  }

  predicate IsFirst(k: Bytes, keys: set<Bytes>) {
    k in keys && forall l :: l in keys ==> LexLe(k, l)
  }

  lemma {:induction false} FirstExists(keys: set<Bytes>)
    requires keys != {}
    ensures exists k :: IsFirst(k, keys)
  {
    var x :| x in keys;
    LexTotal(x, x);
    if y :| y in keys && y != x {
      assert y in keys - {x};
      FirstExists(keys - {x});
      var k :| IsFirst(k, keys - {x});
      LexTotal(k, x);
      var first := if LexLe(k, x) then k else x;
      forall l | l in keys
        ensures LexLe(first, l)
      {
        if l != x {
          assert l in keys - {x};
          if first == x { LexTransitive(x, k, l); }
        }
      }
      assert IsFirst(first, keys);
    } else {
      assert IsFirst(x, keys);
    }
  }

  function First(keys: set<Bytes>): (k: Bytes)
    requires keys != {}
    ensures IsFirst(k, keys)
  {
    FirstExists(keys);
    assert forall k, l :: IsFirst(k, keys) && IsFirst(l, keys) ==> k == l by {
      forall k, l | IsFirst(k, keys) && IsFirst(l, keys)
        ensures k == l
      {
        LexTotal(k, l);
      }
    }
    var k :| IsFirst(k, keys);
    k
  }

  // ----- The printed form -----

  function HeaderLine(key: Bytes, value: Bytes): Bytes {
    key + [COLON] + ([SPACE] + value)
  }

  /** The header lines for the given keys, in byte order of the keys. */
  function HeaderLines(headers: Headers, keys: set<Bytes>): seq<Bytes>
    requires keys <= headers.Keys
    decreases |keys|
  {
    if keys == {} then []
    else
      var k := First(keys);
      [HeaderLine(k, headers[k])] + HeaderLines(headers, keys - {k})
  }

  function RequestLine(r: RtspRequest): Bytes {
    Ascii(MethodName(r.verb)) + [SPACE] + r.uri + Ascii(" RTSP/1.0")
  }

  function CseqLine(cseq: nat): Bytes {
    HeaderLine(Ascii("CSeq"), Decimal(cseq))
  }

  function LengthLines(body: Option<Bytes>): seq<Bytes> {
    match body
    case None => []
    case Some(b) => [HeaderLine(ContentLengthKey(), Decimal(|b|))]
  }

  function RequestLines(r: RtspRequest, cseq: nat): (ls: seq<Bytes>)
    ensures ls != []
  {
    [RequestLine(r), CseqLine(cseq)] + LengthLines(r.body) + HeaderLines(r.headers, r.headers.Keys)
  }

  function BodyBytes(body: Option<Bytes>): Bytes {
    match body
    case None => []
    case Some(b) => b
  }

  function Serialized(r: RtspRequest, cseq: nat): Bytes {
    HeaderText(RequestLines(r, cseq)) + Crlf() + BodyBytes(r.body)
  }

  /** Printing, piece by piece as the pieces are written. */
  method Serialize(r: RtspRequest, cseq: nat) returns (out: Bytes)
    ensures out == Serialized(r, cseq)
  {
    out := RequestLine(r) + Crlf();
    out := out + (CseqLine(cseq) + Crlf());
    ghost var done := [RequestLine(r), CseqLine(cseq)];
    HeaderTextOfTwo(RequestLine(r), CseqLine(cseq));
    if r.body.Some? {
      var line := HeaderLine(ContentLengthKey(), Decimal(|r.body.value|));
      HeaderTextSnoc(done, line);
      out := out + (line + Crlf());
      done := done + [line];
    }
    assert done == [RequestLine(r), CseqLine(cseq)] + LengthLines(r.body);
    var keys := r.headers.Keys;
    while keys != {}
      invariant keys <= r.headers.Keys
      invariant out == HeaderText(done)
      invariant done + HeaderLines(r.headers, keys) == RequestLines(r, cseq)
      decreases |keys|
    {
      var k := First(keys);
      var line := HeaderLine(k, r.headers[k]);
      HeaderTextSnoc(done, line);
      NextHeader(r.headers, keys, done);
      out := out + (line + Crlf());
      done := done + [line];
      keys := keys - {k};
    }
    assert done + [] == done;
    out := out + Crlf();
    if r.body.Some? {
      out := out + r.body.value;
    } else {
      assert out + [] == out;
    }
  }

  lemma NextHeader(headers: Headers, keys: set<Bytes>, done: seq<Bytes>)
    requires keys <= headers.Keys && keys != {}
    ensures
      var k := First(keys);
      done + HeaderLines(headers, keys) == done + [HeaderLine(k, headers[k])] + HeaderLines(headers, keys - {k})
  {}

  lemma HeaderTextOfTwo(x: Bytes, y: Bytes)
    ensures HeaderText([x, y]) == x + Crlf() + (y + Crlf())
  {
    LastLine(y);
    assert [x, y][1..] == [y];
  }

  lemma HeaderTextSnoc(ls: seq<Bytes>, line: Bytes)
    ensures HeaderText(ls + [line]) == HeaderText(ls) + (line + Crlf())
  {
    HeaderTextConcat(ls, [line]);
    LastLine(line);
  }

  // ----- What a request promises -----

  /** The URI and the headers stay on their lines, and the body length fits the reader's integer. */
  ghost predicate WellFormed(r: RtspRequest) {
    && LineSafe(r.uri)
    && (forall k :: k in r.headers ==> LineSafe(k) && LineSafe(r.headers[k]))
    && |BodyBytes(r.body)| < TWO_64
  }

  /** The length the caller's own headers declare, or 0. */
  function SuppliedLength(headers: Headers): nat {
    match FindLength(HeaderLines(headers, headers.Keys))
    case None => 0
    case Some(n) => n
  }

  lemma HeaderLineIsClean(key: Bytes, value: Bytes)
    requires LineSafe(key) && LineSafe(value)
    ensures Clean(HeaderLine(key, value))
  {}

  lemma {:induction false} HeaderLinesAreClean(headers: Headers, keys: set<Bytes>)
    requires keys <= headers.Keys && forall k :: k in keys ==> LineSafe(k) && LineSafe(headers[k])
    ensures AllClean(HeaderLines(headers, keys))
    decreases |keys|
  {
    if keys != {} {
      var k := First(keys);
      HeaderLinesAreClean(headers, keys - {k});
      HeaderLineIsClean(k, headers[k]);
    }
  }

  lemma MethodNameIsSafe(m: RtspMethod)
    ensures LineSafe(Ascii(MethodName(m))) && |MethodName(m)| > 0
    ensures var b := Ascii(MethodName(m))[0]; 65 < b <= 90 && b != 67
  {}

  lemma RequestLineIsClean(r: RtspRequest)
    requires LineSafe(r.uri)
    ensures Clean(RequestLine(r))
  {
    MethodNameIsSafe(r.verb);
    assert LineSafe(Ascii(" RTSP/1.0"));
  }

  lemma RequestLinesAreClean(r: RtspRequest, cseq: nat)
    requires WellFormed(r)
    ensures AllClean(RequestLines(r, cseq))
  {
    RequestLineIsClean(r);
    DecimalIsSafe(cseq);
    HeaderLineIsClean(Ascii("CSeq"), Decimal(cseq));
    DecimalIsSafe(|BodyBytes(r.body)|);
    HeaderLineIsClean(ContentLengthKey(), Decimal(|BodyBytes(r.body)|));
    HeaderLinesAreClean(r.headers, r.headers.Keys);
  }

  /** A request line is never taken for a Content-Length header, whatever colons its URI holds. */
  lemma RequestLineDeclaresNothing(r: RtspRequest)
    ensures LineLength(RequestLine(r)) == None
  {
    MethodNameIsSafe(r.verb);
    assert RequestLine(r)[0] == Ascii(MethodName(r.verb))[0];
    DeclaresNothing(RequestLine(r));
  }

  lemma CseqLineDeclaresNothing(cseq: nat)
    ensures LineLength(CseqLine(cseq)) == None
  {
    SplitOnceConcat(Ascii("CSeq"), COLON, [SPACE] + Decimal(cseq));
  }

  lemma LengthLineDeclares(n: nat)
    requires n < TWO_64
    ensures LineLength(HeaderLine(ContentLengthKey(), Decimal(n))) == Some(n)
  {
    SplitOnceConcat(ContentLengthKey(), COLON, [SPACE] + Decimal(n));
    assert Trimmed(ContentLengthKey());
    TrimTrimmed(ContentLengthKey());
    DecimalTrimmed(n);
    TrimAfterSpace(Decimal(n));
    DecimalRoundTrip(n, TWO_64);
  }

  /** A reader finds the body length if there is a body, else whatever the caller's headers say. */
  lemma RequestDeclares(r: RtspRequest, cseq: nat)
    requires |BodyBytes(r.body)| < TWO_64
    ensures FindLength(RequestLines(r, cseq))
            == if r.body.Some? then Some(|r.body.value|)
               else FindLength(HeaderLines(r.headers, r.headers.Keys))
  {
    var top := [RequestLine(r), CseqLine(cseq)];
    RequestLineDeclaresNothing(r);
    CseqLineDeclaresNothing(cseq);
    FindLengthOfOne(RequestLine(r));
    FindLengthOfOne(CseqLine(cseq));
    FindLengthConcat([RequestLine(r)], [CseqLine(cseq)]);
    assert top == [RequestLine(r)] + [CseqLine(cseq)];
    LengthLineDeclares(|BodyBytes(r.body)|);
    FindLengthConcat(top + LengthLines(r.body), HeaderLines(r.headers, r.headers.Keys));
    FindLengthConcat(top, LengthLines(r.body));
    if r.body.Some? { FindLengthOfOne(HeaderLine(ContentLengthKey(), Decimal(|r.body.value|))); }
  }

  /** Without a Content-Length among the caller's headers nothing is declared. */
  lemma {:induction false} NoLengthSupplied(headers: Headers, keys: set<Bytes>)
    requires keys <= headers.Keys
    requires forall k :: k in keys ==> COLON !in k && !EqIgnoreCase(Trim(k), ContentLengthKey())
    ensures FindLength(HeaderLines(headers, keys)) == None
    decreases |keys|
  {
    if keys != {} {
      var k := First(keys);
      SplitOnceConcat(k, COLON, [SPACE] + headers[k]);
      NoLengthSupplied(headers, keys - {k});
      var ls := HeaderLines(headers, keys);
      assert ls[1..] == HeaderLines(headers, keys - {k});
    }
  }
}
