/** RTSP responses and how they are parsed. */
module RtspResponses {
  import opened Wrappers
  import opened ByteStrings
  import opened RtspText

  datatype ResponseError =
    | MissingTerminator
    | InvalidUtf8
    | MissingStatusLine
    | MalformedStatusLine
    | NotRtsp
    | InvalidStatusCode
    | BodyTooShort

  datatype RtspResponse = RtspResponse(
    statusCode: u16, statusText: Bytes, headers: map<Bytes, Bytes>, body: Option<Bytes>)

  function RtspPrefix(): Bytes { Ascii("RTSP/") }

  /** The status line cut at its first two spaces. */
  function ParseStatusLine(line: Bytes): Result<(u16, Bytes), ResponseError> {
    match SplitOnce(line, SPACE)
    case None => Err(MalformedStatusLine)
    case Some((version, rest)) =>
      if !(RtspPrefix() <= version) then Err(NotRtsp)
      else
        var (code, text) := match SplitOnce(rest, SPACE)
          case None => (rest, [])
          case Some((c, t)) => (c, t);
        match ParseUnsigned(code, TWO_16)
        case None => Err(InvalidStatusCode)
        case Some(n) => Ok((n, text))
  }

  function AddHeader(headers: map<Bytes, Bytes>, line: Bytes): map<Bytes, Bytes> {
    match SplitOnce(line, COLON)
    case None => headers
    case Some((key, value)) => headers[Trim(key) := Trim(value)]
  }

  function CollectHeaders(headers: map<Bytes, Bytes>, ls: seq<Bytes>): map<Bytes, Bytes>
    decreases ls
  {
    if ls == [] then headers else CollectHeaders(AddHeader(headers, ls[0]), ls[1..])
  }

  /** Some key that spells this name in any letter case; which one, if there are several, is open. */
  ghost function FindHeader(headers: map<Bytes, Bytes>, name: Bytes): Option<Bytes> {
    if k :| k in headers && EqIgnoreCase(k, name) then Some(headers[k]) else None
  }

  ghost function HeaderLength(headers: map<Bytes, Bytes>): nat {
    match FindHeader(headers, ContentLengthKey())
    case None => 0
    case Some(value) =>
      match ParseUnsigned(value, TWO_64)
      case None => 0
      case Some(n) => n
  }

  /** Status and headers from the text before the terminator. */
  function ParseHead(text: Bytes): Result<(u16, Bytes, map<Bytes, Bytes>), ResponseError> {
    if !ValidUtf8(text) then Err(InvalidUtf8)
    else
      var ls := Lines(text);
      if ls == [] then Err(MissingStatusLine)
      else
        match ParseStatusLine(ls[0])
        case Err(e) => Err(e)
        case Ok((code, reason)) => Ok((code, reason, CollectHeaders(map[], ls[1..])))
  }

  ghost function Parsed(data: Bytes): Result<RtspResponse, ResponseError> {
    match FindTerminator(data)
    case None => Err(MissingTerminator)
    case Some(end) =>
      if end + 4 > |data| then Err(MissingTerminator)
      else
        match ParseHead(data[..end])
        case Err(e) => Err(e)
        case Ok((code, text, headers)) =>
          var n := HeaderLength(headers);
          if n == 0 then Ok(RtspResponse(code, text, headers, None))
          else if |data| >= end + 4 + n then
            Ok(RtspResponse(code, text, headers, Some(data[end + 4..end + 4 + n])))
          else Err(BodyTooShort)
  }

  lemma CollectSnoc(headers: map<Bytes, Bytes>, ls: seq<Bytes>, line: Bytes)
    ensures CollectHeaders(headers, ls + [line]) == AddHeader(CollectHeaders(headers, ls), line)
    decreases ls
  {
    if ls == [] {
      assert (ls + [line])[1..] == [];
    } else {
      assert (ls + [line])[1..] == ls[1..] + [line];
      CollectSnoc(AddHeader(headers, ls[0]), ls[1..], line);
    }
  }

  /** The header loop of the parser. */
  method ReadHeaders(ls: seq<Bytes>) returns (headers: map<Bytes, Bytes>)
    ensures headers == CollectHeaders(map[], ls)
  {
    headers := map[];
    for i := 0 to |ls|
      invariant headers == CollectHeaders(map[], ls[..i])
    {
      assert ls[..i + 1] == ls[..i] + [ls[i]];
      CollectSnoc(map[], ls[..i], ls[i]);
      var split := SplitOnce(ls[i], COLON);
      if split.Some? {
        var (key, value) := split.value;
        headers := headers[Trim(key) := Trim(value)];
      }
    }
    assert ls[..|ls|] == ls;
  }

  // ----- A response as a server writes it -----

  /** Any lines at all; what they mean is what a reader makes of them. */
  datatype WireResponse = WireResponse(statusLine: Bytes, lines: seq<Bytes>, body: Bytes)

  function ResponseLines(w: WireResponse): (ls: seq<Bytes>)
    ensures ls != []
  {
    [w.statusLine] + w.lines
  }

  function WireBytes(w: WireResponse): Bytes {
    HeaderText(ResponseLines(w)) + Crlf() + w.body
  }

  /** What a header line says, with the padding around key and value taken off. */
  datatype Field = Field(key: Bytes, value: Bytes)

  /** The field of a line, if it has a colon. */
  function FieldOf(line: Bytes): seq<Field> {
    match SplitOnce(line, COLON)
    case None => []
    case Some((key, value)) => [Field(Trim(key), Trim(value))]
  }

  function FieldsOf(ls: seq<Bytes>): seq<Field> {
    if ls == [] then [] else FieldOf(ls[0]) + FieldsOf(ls[1..])
  }

  predicate IsLength(f: Field) {
    EqIgnoreCase(f.key, ContentLengthKey())
  }

  /** Field i is the only Content-Length, and it is readable as n. */
  ghost predicate DeclaredAt(fields: seq<Field>, i: int, n: nat) {
    && 0 <= i < |fields| && IsLength(fields[i])
    && ParseUnsigned(fields[i].value, TWO_64) == Some(n)
    && (forall k :: 0 <= k < |fields| && k != i ==> !IsLength(fields[k]))
  }

  /** The fields declare this body length: through one Content-Length, or none for an empty body. */
  ghost predicate DeclareLength(fields: seq<Field>, n: nat) {
    || (n == 0 && (forall k :: 0 <= k < |fields| ==> !IsLength(fields[k])))
    || (exists i :: DeclaredAt(fields, i, n))
  }

  /** A CRLF-formed response with a readable status line, whose one Content-Length is the length of its body. */
  ghost predicate WellFormed(w: WireResponse) {
    Declares(w, |w.body|)
  }

  /** The same, with any number of bytes where the body should be. */
  ghost predicate Declares(w: WireResponse, n: nat) {
    && ParseStatusLine(w.statusLine).Ok?
    && AllClean(ResponseLines(w)) && AllValidUtf8(ResponseLines(w))
    && DeclareLength(FieldsOf(w.lines), n)
  }

  // ----- What the lines mean -----

  /** A status line in its parts: a version, a code without spaces and, after another space, any reason. */
  ghost predicate StatusParts(line: Bytes, version: Bytes, code: Bytes, reason: Option<Bytes>) {
    && SPACE !in version && SPACE !in code
    && line == version + [SPACE] + (match reason case None => code case Some(text) => code + [SPACE] + text)
  }

  lemma SplitOnceNone(s: Bytes, b: byte)
    requires b !in s
    ensures SplitOnce(s, b) == None
  {}

  lemma SplitOnceParts(s: Bytes, b: byte)
    ensures match SplitOnce(s, b)
            case None => b !in s
            case Some((front, rest)) => b !in front && s == front + [b] + rest
  {
    var k := IndexOf(s, b);
    if k < |s| {
      assert s == s[..k] + [b] + s[k + 1..];
    }
  }

  lemma PrefixBytes()
    ensures RtspPrefix() == [82, 84, 83, 80, 47]
  {}

  /** A status line is read as its code and reason, the empty one if there is none. */
  lemma StatusLineReads(line: Bytes, version: Bytes, code: Bytes, reason: Option<Bytes>)
    requires StatusParts(line, version, code, reason)
    ensures ParseStatusLine(line)
            == if !([82, 84, 83, 80, 47] <= version) then Err(NotRtsp)
               else match ParseUnsigned(code, 65536)
                 case None => Err(InvalidStatusCode)
                 case Some(n) => Ok((n, OrEmpty(reason)))
  {
    PrefixBytes();
    match reason
    case None =>
      SplitOnceConcat(version, SPACE, code);
      SplitOnceNone(code, SPACE);
    case Some(text) =>
      SplitOnceConcat(version, SPACE, code + [SPACE] + text);
      SplitOnceConcat(code, SPACE, text);
  }

  /** And every line is read that has such parts, or has no space at all. */
  lemma StatusLineHasParts(line: Bytes)
    ensures SPACE !in line ==> ParseStatusLine(line) == Err(MalformedStatusLine)
    ensures SPACE in line ==> exists version, code, reason :: StatusParts(line, version, code, reason)
  {
    SplitOnceParts(line, SPACE);
    if SplitOnce(line, SPACE).Some? {
      var (version, rest) := SplitOnce(line, SPACE).value;
      SplitOnceParts(rest, SPACE);
      match SplitOnce(rest, SPACE)
      case None =>
        assert StatusParts(line, version, rest, None);
      case Some((code, text)) =>
        assert StatusParts(line, version, code, Some(text));
    }
  }

  /** However a key and its value are padded, the line's field is the two of them. */
  lemma PaddedFieldReads(p: Bytes, key: Bytes, q: Bytes, r: Bytes, value: Bytes, t: Bytes)
    requires Blank(p) && Blank(q) && Blank(r) && Blank(t)
    requires Trimmed(key) && Trimmed(value) && COLON !in p + key + q
    requires (key == [] ==> q == []) && (value == [] ==> t == [])
    ensures FieldOf((p + key + q) + [COLON] + (r + value + t)) == [Field(key, value)]
  {
    SplitOnceConcat(p + key + q, COLON, r + value + t);
    TrimPadded(p, key, q);
    TrimPadded(r, value, t);
  }

  /** The headers as a map: of fields with the same key, the last one counts. */
  function FieldMap(headers: map<Bytes, Bytes>, fields: seq<Field>): map<Bytes, Bytes>
    decreases fields
  {
    if fields == [] then headers
    else FieldMap(headers[fields[0].key := fields[0].value], fields[1..])
  }

  lemma {:induction false} FieldsCollected(headers: map<Bytes, Bytes>, ls: seq<Bytes>)
    ensures CollectHeaders(headers, ls) == FieldMap(headers, FieldsOf(ls))
    decreases ls
  {
    if ls != [] {
      FieldsCollected(AddHeader(headers, ls[0]), ls[1..]);
      if FieldOf(ls[0]) == [] {
        assert FieldsOf(ls) == FieldsOf(ls[1..]);
      } else {
        assert FieldsOf(ls)[1..] == FieldsOf(ls[1..]);
      }
    }
  }

  /** Field k is the last one with its key. */
  ghost predicate LastWithKey(fields: seq<Field>, k: int) {
    0 <= k < |fields| && (forall j :: k < j < |fields| ==> fields[j].key != fields[k].key)
  }

  /** The last field with a key gives its value; a key that no field has keeps what it had before. */
  lemma {:induction false} FieldMapMeaning(headers: map<Bytes, Bytes>, fields: seq<Field>, key: Bytes)
    ensures key in FieldMap(headers, fields) <==>
            key in headers || exists k :: 0 <= k < |fields| && fields[k].key == key
    ensures forall k :: LastWithKey(fields, k) && fields[k].key == key ==>
              key in FieldMap(headers, fields) && FieldMap(headers, fields)[key] == fields[k].value
    ensures key in headers && (forall k :: 0 <= k < |fields| ==> fields[k].key != key) ==>
              FieldMap(headers, fields)[key] == headers[key]
    decreases fields
  {
    if fields != [] {
      var first, rest := fields[0], fields[1..];
      var headers' := headers[first.key := first.value];
      FieldMapMeaning(headers', rest, key);
      assert forall k :: 0 < k < |fields| ==> fields[k] == rest[k - 1];
      forall k | LastWithKey(fields, k) && fields[k].key == key
        ensures key in FieldMap(headers, fields) && FieldMap(headers, fields)[key] == fields[k].value
      {
        if k > 0 {
          assert LastWithKey(rest, k - 1);
        } else {
          assert forall j :: 0 <= j < |rest| ==> rest[j] == fields[j + 1];
        }
      }
    }
  }

  /** A key that some field has, some field has last. */
  lemma LastExists(fields: seq<Field>, key: Bytes) returns (k: nat)
    requires exists i :: 0 <= i < |fields| && fields[i].key == key
    ensures LastWithKey(fields, k) && fields[k].key == key
  {
    k := |fields| - 1;
    while fields[k].key != key
      invariant k < |fields| && forall j :: k < j < |fields| ==> fields[j].key != key
      decreases k
    {
      k := k - 1;
    }
  }

  /** Looking the length up in the parsed map gives the length the fields declare. */
  lemma MapLength(fields: seq<Field>, n: nat)
    requires DeclareLength(fields, n)
    ensures HeaderLength(FieldMap(map[], fields)) == n
  {
    var headers := FieldMap(map[], fields);
    forall key | key in headers && EqIgnoreCase(key, ContentLengthKey())
      ensures exists k :: 0 <= k < |fields| && IsLength(fields[k]) && fields[k] == Field(key, headers[key])
    {
      FieldMapMeaning(map[], fields, key);
      var k := LastExists(fields, key);
      assert IsLength(fields[k]) && fields[k] == Field(key, headers[key]);
    }
    if i :| DeclaredAt(fields, i, n) {
      FieldMapMeaning(map[], fields, fields[i].key);
      assert FindHeader(headers, ContentLengthKey()) == Some(fields[i].value);
    } else {
      assert FindHeader(headers, ContentLengthKey()) == None;
    }
  }

  lemma LineLengthIs(line: Bytes)
    ensures LineLength(line)
            == match SplitOnce(line, COLON)
               case None => None
               case Some((key, value)) =>
                 var f := Field(Trim(key), Trim(value));
                 if IsLength(f) then ParseUnsigned(f.value, TWO_64) else None
  {}

  /** Scanning lines finds what the first readable Content-Length among their fields says. */
  function FieldLength(fields: seq<Field>): Option<nat> {
    if fields == [] then None
    else if IsLength(fields[0]) && ParseUnsigned(fields[0].value, TWO_64).Some?
      then ParseUnsigned(fields[0].value, TWO_64)
    else FieldLength(fields[1..])
  }

  lemma {:induction false} LinesDeclare(ls: seq<Bytes>)
    ensures FindLength(ls) == FieldLength(FieldsOf(ls))
  {
    if ls != [] {
      LinesDeclare(ls[1..]);
      LineLengthIs(ls[0]);
      if FieldOf(ls[0]) == [] {
        assert FieldsOf(ls) == FieldsOf(ls[1..]);
      } else {
        assert FieldsOf(ls)[1..] == FieldsOf(ls[1..]);
      }
    }
  }

  lemma {:induction false} NoFieldDeclares(fields: seq<Field>)
    requires forall k :: 0 <= k < |fields| ==> !IsLength(fields[k])
    ensures FieldLength(fields) == None
  {
    if fields != [] { NoFieldDeclares(fields[1..]); }
  }

  lemma {:induction false} OneFieldDeclares(fields: seq<Field>, i: nat, n: nat)
    requires DeclaredAt(fields, i, n)
    ensures FieldLength(fields) == Some(n)
    decreases i
  {
    if i > 0 {
      assert fields[1..][i - 1] == fields[i];
      OneFieldDeclares(fields[1..], i - 1, n);
    }
  }

  /** Scanning the header text gives the same length as the parsed map. */
  lemma TextLength(w: WireResponse)
    requires WellFormed(w)
    ensures match FindLength(ResponseLines(w))
            case None => |w.body| == 0
            case Some(n) => |w.body| == n
  {
    var fields := FieldsOf(w.lines);
    StatusLineDeclaresNothing(w.statusLine);
    assert ResponseLines(w)[1..] == w.lines;
    LinesDeclare(w.lines);
    if i :| DeclaredAt(fields, i, |w.body|) {
      OneFieldDeclares(fields, i, |w.body|);
    } else {
      NoFieldDeclares(fields);
    }
  }

  lemma StatusLineDeclaresNothing(line: Bytes)
    requires ParseStatusLine(line).Ok?
    ensures LineLength(line) == None
  {
    SplitOnceParts(line, SPACE);
    assert RtspPrefix()[0] == 82;
    DeclaresNothing(line);
  }

  lemma HeadParses(w: WireResponse, n: nat)
    requires Declares(w, n)
    ensures
      var (code, reason) := ParseStatusLine(w.statusLine).value;
      ParseHead(Head(ResponseLines(w))) == Ok((code, reason, FieldMap(map[], FieldsOf(w.lines))))
  {
    var ls := ResponseLines(w);
    HeadIsValid(ls);
    LinesOfHead(ls);
    assert ls[1..] == w.lines;
    FieldsCollected(map[], w.lines);
  }

  lemma BodyAfterHead(ls: seq<Bytes>, body: Bytes, n: nat)
    requires ls != []
    ensures
      var data := HeaderText(ls) + Crlf() + body;
      var start := |Head(ls)| + 4;
      |data| == start + |body| && (n <= |body| ==> data[start..start + n] == body[..n])
  {
    HeadThenCrlf(ls);
  }

  /** A body that is announced and is there; bytes beyond it are left alone. */
  function BodyOf(body: Bytes, n: nat): Result<Option<Bytes>, ResponseError> {
    if n == 0 then Ok(None) else if n <= |body| then Ok(Some(body[..n])) else Err(BodyTooShort)
  }

  function Responded(code: u16, text: Bytes, headers: map<Bytes, Bytes>, body: Result<Option<Bytes>, ResponseError>)
    : Result<RtspResponse, ResponseError>
  {
    match body
    case Err(e) => Err(e)
    case Ok(b) => Ok(RtspResponse(code, text, headers, b))
  }

  lemma ParsedIs(data: Bytes, head: Bytes, body: Bytes, code: u16, text: Bytes, headers: map<Bytes, Bytes>, n: nat)
    requires |data| == |head| + 4 + |body| && FindTerminator(data) == Some(|head|)
    requires data[..|head|] == head && (n <= |body| ==> data[|head| + 4..|head| + 4 + n] == body[..n])
    requires ParseHead(head) == Ok((code, text, headers)) && HeaderLength(headers) == n
    ensures Parsed(data) == Responded(code, text, headers, BodyOf(body, n))
  {}

  lemma ParsesLines(ls: seq<Bytes>, body: Bytes, code: u16, text: Bytes, headers: map<Bytes, Bytes>, n: nat)
    requires ls != [] && AllClean(ls)
    requires ParseHead(Head(ls)) == Ok((code, text, headers)) && HeaderLength(headers) == n
    ensures Parsed(HeaderText(ls) + Crlf() + body) == Responded(code, text, headers, BodyOf(body, n))
  {
    HeaderEnds(ls, body);
    BodyAfterHead(ls, body, n);
    ParsedIs(HeaderText(ls) + Crlf() + body, Head(ls), body, code, text, headers, n);
  }

  /** However many bytes follow the header: too few are an error, and of too many only the declared ones count. */
  lemma ParsesDeclared(w: WireResponse, n: nat)
    requires Declares(w, n)
    ensures
      var (code, reason) := ParseStatusLine(w.statusLine).value;
      Parsed(WireBytes(w)) == Responded(code, reason, FieldMap(map[], FieldsOf(w.lines)), BodyOf(w.body, n))
  {
    var (code, reason) := ParseStatusLine(w.statusLine).value;
    HeadParses(w, n);
    MapLength(FieldsOf(w.lines), n);
    ParsesLines(ResponseLines(w), w.body, code, reason, FieldMap(map[], FieldsOf(w.lines)), n);
  }

  /** Parsing a well-formed response yields exactly what its status line says, its fields and its body. */
  lemma ParsesWire(w: WireResponse)
    requires WellFormed(w)
    ensures
      var (code, reason) := ParseStatusLine(w.statusLine).value;
      Parsed(WireBytes(w))
      == Ok(RtspResponse(code, reason, FieldMap(map[], FieldsOf(w.lines)),
                         if w.body == [] then None else Some(w.body)))
  {
    ParsesDeclared(w, |w.body|);
    assert w.body[..|w.body|] == w.body;
  }
}
