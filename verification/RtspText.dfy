/** Header text as bytes: lines, trimming, numbers, and where a message ends. */
module RtspText {
  import opened Wrappers
  import opened ByteStrings

  const CR: byte := 13
  const LF: byte := 10
  const COLON: byte := 58
  const SPACE: byte := 32
  const PLUS: byte := 43

  function Crlf(): Bytes { [CR, LF] }

  function ContentLengthKey(): Bytes { Ascii("Content-Length") }

  // ----- White space, in UTF-8. A white-space character is recognised at either end of a byte string
  // whatever the other bytes are, because its first byte never continues another character. -----

  predicate Space1(b: byte) {
    9 <= b <= 13 || b == 32
  }

  predicate Space2(b: byte, c: byte) {
    b == 0xC2 && (c == 0x85 || c == 0xA0)
  }

  predicate Space3(b: byte, c: byte, d: byte) {
    || (b == 0xE1 && c == 0x9A && d == 0x80)
    || (b == 0xE2 && c == 0x80 && (0x80 <= d <= 0x8A || d == 0xA8 || d == 0xA9 || d == 0xAF))
    || (b == 0xE2 && c == 0x81 && d == 0x9F)
    || (b == 0xE3 && c == 0x80 && d == 0x80)
  }

  /** The length of the white-space character a string begins with, or 0. */
  function LeadingSpace(s: Bytes): (n: nat)
    ensures n <= |s|
  {
    if |s| >= 1 && Space1(s[0]) then 1
    else if |s| >= 2 && Space2(s[0], s[1]) then 2
    else if |s| >= 3 && Space3(s[0], s[1], s[2]) then 3
    else 0
  }

  /** The length of the white-space character a string ends with, or 0. */
  function TrailingSpace(s: Bytes): (n: nat)
    ensures n <= |s|
  {
    var k := |s|;
    if k >= 1 && Space1(s[k - 1]) then 1
    else if k >= 2 && Space2(s[k - 2], s[k - 1]) then 2
    else if k >= 3 && Space3(s[k - 3], s[k - 2], s[k - 1]) then 3
    else 0
  }

  function TrimStart(s: Bytes): (r: Bytes)
    ensures |r| <= |s| && LeadingSpace(r) == 0
  {
    var n := LeadingSpace(s);
    if n == 0 then s else TrimStart(s[n..])
  }

  function TrimEnd(s: Bytes): (r: Bytes)
    ensures |r| <= |s| && TrailingSpace(r) == 0
  {
    var n := TrailingSpace(s);
    if n == 0 then s else TrimEnd(s[..|s| - n])
  }

  function Trim(s: Bytes): Bytes {
    TrimEnd(TrimStart(s))
  }

  /** No white space at either end. */
  predicate Trimmed(s: Bytes) {
    LeadingSpace(s) == 0 && TrailingSpace(s) == 0
  }

  lemma TrimTrimmed(s: Bytes)
    requires Trimmed(s)
    ensures Trim(s) == s
  {}

  lemma LeadingKept(p: Bytes, s: Bytes)
    requires LeadingSpace(p) > 0
    ensures LeadingSpace(p + s) == LeadingSpace(p)
  {}

  lemma TrailingKept(s: Bytes, q: Bytes)
    requires TrailingSpace(q) > 0
    ensures TrailingSpace(s + q) == TrailingSpace(q)
  {}

  lemma TrimStartStep(s: Bytes, n: nat, rest: Bytes)
    requires n == LeadingSpace(s) && rest == s[n..]
    ensures TrimStart(s) == if n == 0 then s else TrimStart(rest)
  {}

  lemma {:induction false} TrimStartPadded(p: Bytes, s: Bytes)
    requires TrimStart(p) == [] && LeadingSpace(s) == 0
    ensures TrimStart(p + s) == s
    decreases |p|
  {
    var n := LeadingSpace(p);
    TrimStartStep(p, n, p[n..]);
    if p == [] {
      assert p + s == s;
    } else {
      LeadingKept(p, s);
      assert (p + s)[n..] == p[n..] + s;
      TrimStartStep(p + s, n, p[n..] + s);
      TrimStartPadded(p[n..], s);
    }
  }

  lemma {:induction false} TrimEndPadded(s: Bytes, q: Bytes)
    requires TrimEnd(q) == [] && TrailingSpace(s) == 0
    ensures TrimEnd(s + q) == s
    decreases |q|
  {
    if q == [] {
      assert s + q == s;
    } else {
      var n := TrailingSpace(q);
      TrailingKept(s, q);
      assert (s + q)[..|s + q| - n] == s + q[..|q| - n];
      TrimEndPadded(s, q[..|q| - n]);
    }
  }

  /** White space and nothing else, as seen from its beginning and from its end. */
  ghost predicate Blank(s: Bytes) {
    TrimStart(s) == [] && TrimEnd(s) == []
  }

  /** No white-space character starts in a text and ends in the padding after it. */
  lemma NoSpaceAcross(s: Bytes, q: Bytes)
    requires LeadingSpace(s) == 0 && TrimStart(q) == [] && (s == [] ==> q == [])
    ensures LeadingSpace(s + q) == 0
  {}

  /** Trimming takes off all the padding and nothing else. */
  lemma TrimPadded(p: Bytes, s: Bytes, q: Bytes)
    requires Blank(p) && Blank(q) && Trimmed(s) && (s == [] ==> q == [])
    ensures Trim(p + s + q) == s
  {
    assert p + s + q == p + (s + q);
    NoSpaceAcross(s, q);
    TrimStartPadded(p, s + q);
    TrimEndPadded(s, q);
  }

  lemma TrimAfterSpace(s: Bytes)
    requires Trimmed(s)
    ensures Trim([SPACE] + s) == s
  {
    var space: Bytes := [SPACE];
    assert space[1..] == [] && space[..0] == [];
    TrimPadded(space, s, []);
    assert space + s + [] == space + s;
  }

  // ----- Case, numbers -----

  function LowerByte(b: byte): byte {
    if 65 <= b <= 90 then b + 32 else b
  }

  predicate EqIgnoreCase(s: Bytes, t: Bytes) {
    |s| == |t| && forall i :: 0 <= i < |s| ==> LowerByte(s[i]) == LowerByte(t[i])
  }

  predicate Digit(b: byte) {
    48 <= b <= 57
  }

  function Decimal(n: nat): (r: Bytes)
    ensures |r| > 0 && forall i :: 0 <= i < |r| ==> Digit(r[i])
  {
    if n < 10 then [48 + n] else Decimal(n / 10) + [48 + n % 10]
  }

  function DigitsValue(s: Bytes): Option<nat> {
    if s == [] then Some(0)
    else
      var last := s[|s| - 1];
      match DigitsValue(s[..|s| - 1])
      case None => None
      case Some(high) => if Digit(last) then Some(high * 10 + (last - 48)) else None
  }

  /** An unsigned number below `limit`: an optional plus sign and at least one digit. */
  function ParseUnsigned(s: Bytes, limit: nat): Option<nat> {
    var digits := if s != [] && s[0] == PLUS then s[1..] else s;
    if digits == [] then None
    else
      match DigitsValue(digits)
      case None => None
      case Some(n) => if n < limit then Some(n) else None
  }

  lemma {:induction false} DecimalValue(n: nat)
    ensures DigitsValue(Decimal(n)) == Some(n)
  {
    if n < 10 {
      assert [48 + n][..0] == [];
    } else {
      DecimalValue(n / 10);
      assert Decimal(n)[..|Decimal(n)| - 1] == Decimal(n / 10);
    }
  }

  /** A printed number is read back, as long as it fits the reader's integer. */
  lemma DecimalRoundTrip(n: nat, limit: nat)
    ensures ParseUnsigned(Decimal(n), limit) == if n < limit then Some(n) else None
  {
    DecimalValue(n);
    assert Digit(Decimal(n)[0]);
  }

  lemma DecimalTrimmed(n: nat)
    ensures Trimmed(Decimal(n))
  {
    var d := Decimal(n);
    assert Digit(d[0]) && Digit(d[|d| - 1]);
    if |d| >= 2 { assert Digit(d[1]) && Digit(d[|d| - 2]); }
  }

  // ----- Lines -----

  function IndexOf(s: Bytes, b: byte): (k: nat)
    ensures k <= |s| && (k < |s| ==> s[k] == b) && forall i :: 0 <= i < k ==> s[i] != b
  {
    if s == [] || s[0] == b then 0 else 1 + IndexOf(s[1..], b)
  }

  lemma IndexOfConcat(s: Bytes, b: byte, t: Bytes)
    requires b !in s
    ensures IndexOf(s + [b] + t, b) == |s|
  {
    var all := s + [b] + t;
    assert all[|s|] == b;
    assert forall k :: 0 <= k < |s| ==> all[k] == s[k];
  }

  /** The text before and after the first occurrence of a separator. */
  function SplitOnce(s: Bytes, b: byte): Option<(Bytes, Bytes)> {
    var k := IndexOf(s, b);
    if k == |s| then None else Some((s[..k], s[k + 1..]))
  }

  lemma SplitOnceConcat(s: Bytes, b: byte, t: Bytes)
    requires b !in s
    ensures SplitOnce(s + [b] + t, b) == Some((s, t))
  {
    IndexOfConcat(s, b, t);
    var all := s + [b] + t;
    assert all[..|s|] == s && all[|s| + 1..] == t;
  }

  function DropCr(line: Bytes): Bytes {
    if line != [] && line[|line| - 1] == CR then line[..|line| - 1] else line
  }

  /** Lines end at LF or CRLF; a last line without an ending is kept as it is. */
  function Lines(s: Bytes): seq<Bytes> {
    if s == [] then []
    else
      var k := IndexOf(s, LF);
      if k == |s| then [s] else [DropCr(s[..k])] + Lines(s[k + 1..])
  }

  predicate LineSafe(s: Bytes) {
    CR !in s && LF !in s
  }

  lemma DecimalIsSafe(n: nat)
    ensures LineSafe(Decimal(n))
  {}

  /** A line that can stand in a header: not empty, no CR, no LF. */
  predicate Clean(line: Bytes) {
    line != [] && CR !in line && LF !in line
  }

  predicate AllClean(ls: seq<Bytes>) {
    forall k :: 0 <= k < |ls| ==> Clean(ls[k])
  }

  /** Every line followed by CRLF. */
  function HeaderText(ls: seq<Bytes>): Bytes {
    if ls == [] then [] else ls[0] + Crlf() + HeaderText(ls[1..])
  }

  /** The header text of a message: its lines without the last CRLF. */
  function Head(ls: seq<Bytes>): Bytes
    requires ls != []
  {
    var n := |ls| - 1;
    HeaderText(ls[..n]) + ls[n]
  }

  lemma {:induction false} HeaderTextConcat(ls: seq<Bytes>, ms: seq<Bytes>)
    ensures HeaderText(ls + ms) == HeaderText(ls) + HeaderText(ms)
  {
    if ls == [] {
      assert ls + ms == ms;
    } else {
      assert (ls + ms)[1..] == ls[1..] + ms;
      HeaderTextConcat(ls[1..], ms);
    }
  }

  lemma LastLine(line: Bytes)
    ensures HeaderText([line]) == line + Crlf()
  {
    var rest: seq<Bytes> := [line][1..];
    assert rest == [];
  }

  lemma HeadThenCrlf(ls: seq<Bytes>)
    requires ls != []
    ensures HeaderText(ls) == Head(ls) + Crlf()
  {
    var n := |ls| - 1;
    assert ls == ls[..n] + [ls[n]];
    HeaderTextConcat(ls[..n], [ls[n]]);
    LastLine(ls[n]);
  }

  lemma LinesStep(line: Bytes, rest: Bytes)
    requires Clean(line)
    ensures Lines(line + Crlf() + rest) == [line] + Lines(rest)
  {
    var s := line + Crlf() + rest;
    var withCr := line + [CR];
    assert s == withCr + [LF] + rest;
    IndexOfConcat(withCr, LF, rest);
    assert s[..|withCr|] == withCr && s[|withCr| + 1..] == rest;
    assert DropCr(withCr) == line;
  }

  lemma HeaderTextStep(ls: seq<Bytes>, rest: Bytes)
    requires ls != []
    ensures HeaderText(ls) + rest == ls[0] + Crlf() + (HeaderText(ls[1..]) + rest)
  {}

  lemma FirstAndRest(ls: seq<Bytes>, ms: seq<Bytes>)
    requires ls != []
    ensures [ls[0]] + (ls[1..] + ms) == ls + ms
  {}

  lemma {:induction false} LinesOfHeaderText(ls: seq<Bytes>, rest: Bytes)
    requires AllClean(ls)
    ensures Lines(HeaderText(ls) + rest) == ls + Lines(rest)
  {
    if ls == [] {
      assert HeaderText(ls) + rest == rest;
    } else {
      LinesOfHeaderText(ls[1..], rest);
      HeaderTextStep(ls, rest);
      LinesStep(ls[0], HeaderText(ls[1..]) + rest);
      FirstAndRest(ls, Lines(rest));
    }
  }

  /** The header text splits back into exactly its lines. */
  lemma LinesOfHead(ls: seq<Bytes>)
    requires ls != [] && AllClean(ls)
    ensures Lines(Head(ls)) == ls
  {
    var n := |ls| - 1;
    LinesOfHeaderText(ls[..n], ls[n]);
    assert Clean(ls[n]);
    assert Lines(ls[n]) == [ls[n]];
    assert ls == ls[..n] + [ls[n]];
  }

  // ----- The end of the header -----

  /** CR LF CR LF stands at position p. */
  predicate TerminatorAt(data: Bytes, p: int) {
    0 <= p && p + 4 <= |data|
    && data[p] == CR && data[p + 1] == LF && data[p + 2] == CR && data[p + 3] == LF
  }

  function FindFrom(data: Bytes, p: nat): Option<nat>
    decreases |data| - p
  {
    if p + 4 > |data| then None
    else if TerminatorAt(data, p) then Some(p)
    else FindFrom(data, p + 1)
  }

  /** The first position of the header terminator. */
  function FindTerminator(data: Bytes): Option<nat> {
    FindFrom(data, 0)
  }

  lemma {:induction false} FindFromIs(data: Bytes, p: nat)
    ensures
      match FindFrom(data, p)
      case None => forall q :: p <= q ==> !TerminatorAt(data, q)
      case Some(e) => p <= e && TerminatorAt(data, e) && forall q :: p <= q < e ==> !TerminatorAt(data, q)
    decreases |data| - p
  {
    if p + 4 <= |data| && !TerminatorAt(data, p) {
      FindFromIs(data, p + 1);
    }
  }

  /** A prefix has the same terminator as the whole, once it is long enough to contain it. */
  lemma TerminatorOfPrefix(data: Bytes, k: nat)
    requires k <= |data| && FindTerminator(data).Some?
    ensures
      var e := FindTerminator(data).value;
      e + 4 <= |data| && FindTerminator(data[..k]) == if e + 4 <= k then Some(e) else None
  {
    var e := FindTerminator(data).value;
    FindFromIs(data, 0);
    FindFromIs(data[..k], 0);
    forall q
      ensures TerminatorAt(data[..k], q) <==> TerminatorAt(data, q) && q + 4 <= k
    {}
  }

  lemma TerminatorShift(front: Bytes, data: Bytes, p: nat)
    ensures TerminatorAt(front + data, |front| + p) <==> TerminatorAt(data, p)
  {}

  /** Clean lines hold no terminator before their end. */
  lemma {:induction false} NoEarlyTerminator(ls: seq<Bytes>, tail: Bytes, q: nat)
    requires AllClean(ls) && ls != [] && q < |HeaderText(ls)| - 2
    ensures !TerminatorAt(HeaderText(ls) + tail, q)
  {
    var line, more := ls[0], HeaderText(ls[1..]);
    var data := HeaderText(ls) + tail;
    assert Clean(line);
    assert data == line + Crlf() + (more + tail);
    if q < |line| {
      assert data[q] == line[q];
    } else if q == |line| {
      assert Clean(ls[1]);
      assert more[0] == ls[1][0];
      assert data[q + 2] == more[0];
    } else if q == |line| + 1 {
      assert data[q] == LF;
    } else {
      var p := q - |line| - 2;
      NoEarlyTerminator(ls[1..], tail, p);
      TerminatorShift(line + Crlf(), more + tail, p);
    }
  }

  /** A message of clean lines, an empty line and any body ends its header at the empty line. */
  lemma HeaderEnds(ls: seq<Bytes>, body: Bytes)
    requires AllClean(ls) && ls != []
    ensures |Head(ls)| == |HeaderText(ls)| - 2
    ensures FindTerminator(HeaderText(ls) + Crlf() + body) == Some(|Head(ls)|)
    ensures (HeaderText(ls) + Crlf() + body)[..|Head(ls)|] == Head(ls)
  {
    HeadThenCrlf(ls);
    var e := |Head(ls)|;
    var data := HeaderText(ls) + Crlf() + body;
    assert data == HeaderText(ls) + (Crlf() + body);
    assert data[e..e + 4] == Crlf() + Crlf();
    assert data[e] == data[e..e + 4][0] && data[e + 1] == data[e..e + 4][1];
    assert data[e + 2] == data[e..e + 4][2] && data[e + 3] == data[e..e + 4][3];
    assert TerminatorAt(data, e);
    forall q: nat | q < e
      ensures !TerminatorAt(data, q)
    {
      NoEarlyTerminator(ls, Crlf() + body, q);
    }
    FindFromIs(data, 0);
  }

  // ----- Content-Length -----

  /** The length a header line declares, if it is a readable Content-Length line. */
  function LineLength(line: Bytes): Option<nat> {
    match SplitOnce(line, COLON)
    case None => None
    case Some((key, value)) =>
      if EqIgnoreCase(Trim(key), ContentLengthKey()) then ParseUnsigned(Trim(value), TWO_64) else None
  }

  /** The bytes of "content-length", each letter small or capital. */
  ghost predicate SpellsContentLength(key: Bytes) {
    var small: Bytes := [99, 111, 110, 116, 101, 110, 116, 45, 108, 101, 110, 103, 116, 104];
    |key| == 14 && key[7] == 45
    && forall i :: 0 <= i < 14 && i != 7 ==> key[i] == small[i] || key[i] == small[i] - 32
  }

  lemma ContentLengthBytes()
    ensures ContentLengthKey() == [67, 111, 110, 116, 101, 110, 116, 45, 76, 101, 110, 103, 116, 104]
  {}

  lemma LowerIs(b: byte, small: nat)
    requires 97 <= small <= 122 || small == 45
    ensures LowerByte(b) == small <==> b == small || (small != 45 && b == small - 32)
  {}

  lemma SpellsIff(key: Bytes)
    ensures EqIgnoreCase(key, ContentLengthKey()) <==> SpellsContentLength(key)
  {
    ContentLengthBytes();
    if |key| == 14 {
      var capital := ContentLengthKey();
      var small: Bytes := [99, 111, 110, 116, 101, 110, 116, 45, 108, 101, 110, 103, 116, 104];
      forall i | 0 <= i < 14
        ensures LowerByte(capital[i]) == small[i]
        ensures LowerByte(key[i]) == small[i] <==> key[i] == small[i] || (i != 7 && key[i] == small[i] - 32)
      {
        LowerIs(key[i], small[i]);
      }
    }
  }

  /** A line declares a length exactly when its key spells the name, in any mixture of letter cases. */
  lemma AnyCaseDeclares(key: Bytes, n: nat)
    requires COLON !in key && Trimmed(key) && n < TWO_64
    ensures LineLength(key + [58] + ([32] + Decimal(n))) == if SpellsContentLength(key) then Some(n) else None
  {
    SplitOnceConcat(key, COLON, [SPACE] + Decimal(n));
    TrimTrimmed(key);
    DecimalTrimmed(n);
    TrimAfterSpace(Decimal(n));
    DecimalRoundTrip(n, TWO_64);
    SpellsIff(key);
  }

  function FindLength(ls: seq<Bytes>): Option<nat> {
    if ls == [] then None
    else if LineLength(ls[0]).Some? then LineLength(ls[0])
    else FindLength(ls[1..])
  }

  /** The body length a header text declares: its first readable Content-Length, else 0. */
  function DeclaredLength(text: Bytes): nat {
    match FindLength(Lines(text))
    case None => 0
    case Some(n) => n
  }

  lemma {:induction false} FindLengthConcat(ls: seq<Bytes>, ms: seq<Bytes>)
    ensures FindLength(ls + ms) == if FindLength(ls).Some? then FindLength(ls) else FindLength(ms)
  {
    if ls == [] {
      assert ls + ms == ms;
    } else {
      assert (ls + ms)[1..] == ls[1..] + ms;
      FindLengthConcat(ls[1..], ms);
    }
  }

  lemma FindLengthOfOne(line: Bytes)
    ensures FindLength([line]) == LineLength(line)
  {
    var rest: seq<Bytes> := [line][1..];
    assert rest == [];
  }

  lemma {:induction false} TrimEndIsPrefix(s: Bytes)
    ensures TrimEnd(s) <= s
    decreases |s|
  {
    if TrailingSpace(s) > 0 { TrimEndIsPrefix(s[..|s| - TrailingSpace(s)]); }
  }

  /** A line that begins with a capital other than A or C is no Content-Length header. */
  lemma DeclaresNothing(line: Bytes)
    requires line != [] && 65 < line[0] <= 90 && line[0] != 67
    ensures LineLength(line) == None
  {
    var k := IndexOf(line, COLON);
    var key := line[..k];
    TrimEndIsPrefix(key);
    assert ContentLengthKey()[0] == 67;
  }

  // ----- UTF-8 -----

  predicate Cont(b: byte) {
    0x80 <= b <= 0xBF
  }

  /** The length of the well-formed character a string begins with, or 0. */
  function CharLen(s: Bytes): (n: nat)
    ensures n <= |s|
  {
    if s == [] then 0
    else if s[0] < 0x80 then 1
    else if |s| >= 2 && 0xC2 <= s[0] <= 0xDF && Cont(s[1]) then 2
    else if |s| >= 3 && Cont(s[2])
      && ((s[0] == 0xE0 && 0xA0 <= s[1] <= 0xBF)
          || ((0xE1 <= s[0] <= 0xEC || 0xEE <= s[0] <= 0xEF) && Cont(s[1]))
          || (s[0] == 0xED && 0x80 <= s[1] <= 0x9F)) then 3
    else if |s| >= 4 && Cont(s[2]) && Cont(s[3])
      && ((s[0] == 0xF0 && 0x90 <= s[1] <= 0xBF)
          || (0xF1 <= s[0] <= 0xF3 && Cont(s[1]))
          || (s[0] == 0xF4 && 0x80 <= s[1] <= 0x8F)) then 4
    else 0
  }

  predicate ValidUtf8(s: Bytes) {
    s == [] || (CharLen(s) > 0 && ValidUtf8(s[CharLen(s)..]))
  }

  lemma CharLenKept(s: Bytes, t: Bytes)
    requires CharLen(s) > 0
    ensures CharLen(s + t) == CharLen(s)
  {}

  lemma {:induction false} ValidUtf8Concat(s: Bytes, t: Bytes)
    requires ValidUtf8(s) && ValidUtf8(t)
    ensures ValidUtf8(s + t)
  {
    if s == [] {
      assert s + t == t;
    } else {
      var n := CharLen(s);
      CharLenKept(s, t);
      assert (s + t)[n..] == s[n..] + t;
      ValidUtf8Concat(s[n..], t);
    }
  }

  lemma {:induction false} AsciiIsValid(s: Bytes)
    requires forall i :: 0 <= i < |s| ==> s[i] < 0x80
    ensures ValidUtf8(s)
  {
    if s != [] { AsciiIsValid(s[1..]); }
  }

  predicate AllValidUtf8(ls: seq<Bytes>) {
    forall k :: 0 <= k < |ls| ==> ValidUtf8(ls[k])
  }

  lemma {:induction false} HeaderTextIsValid(ls: seq<Bytes>)
    requires AllValidUtf8(ls)
    ensures ValidUtf8(HeaderText(ls))
  {
    if ls != [] {
      HeaderTextIsValid(ls[1..]);
      AsciiIsValid(Crlf());
      ValidUtf8Concat(ls[0], Crlf());
      ValidUtf8Concat(ls[0] + Crlf(), HeaderText(ls[1..]));
    }
  }

  lemma HeadIsValid(ls: seq<Bytes>)
    requires ls != [] && AllValidUtf8(ls)
    ensures ValidUtf8(Head(ls))
  {
    HeaderTextIsValid(ls[..|ls| - 1]);
    ValidUtf8Concat(HeaderText(ls[..|ls| - 1]), ls[|ls| - 1]);
  }

  // ----- White space by its code points -----

  /** The code point of a well-formed character. */
  function CodePoint(c: Bytes): nat
    requires c != [] && CharLen(c) == |c|
  {
    if |c| == 1 then c[0]
    else if |c| == 2 then (c[0] as int - 192) * 64 + (c[1] as int - 128)
    else if |c| == 3 then (c[0] as int - 224) * 4096 + (c[1] as int - 128) * 64 + (c[2] as int - 128)
    else
      (c[0] as int - 240) * 262144 + (c[1] as int - 128) * 4096 + (c[2] as int - 128) * 64 + (c[3] as int - 128)
  }

  /** The characters with the property White_Space. */
  ghost predicate WhiteSpace(point: nat) {
    || 0x9 <= point <= 0xD || point == 0x20 || point == 0x85 || point == 0xA0 || point == 0x1680
    || 0x2000 <= point <= 0x200A || point == 0x2028 || point == 0x2029 || point == 0x202F || point == 0x205F
    || point == 0x3000
  }

  /** Exactly the white-space characters are trimmed away, at either end. */
  lemma WhiteSpaceIsTrimmed(c: Bytes)
    requires c != [] && CharLen(c) == |c|
    ensures LeadingSpace(c) == if WhiteSpace(CodePoint(c)) then |c| else 0
    ensures TrailingSpace(c) == if WhiteSpace(CodePoint(c)) then |c| else 0
  {
    var point := CodePoint(c);
    if |c| == 4 {
      assert c[0] == 240 ==> c[1] >= 144;
      assert point >= 0x10000;
    } else if |c| == 3 {
      assert point >= 0x800;
    }
  }

  // ----- UTF-8 by its code points -----

  ghost predicate Scalar(point: nat) {
    point < 0xD800 || 0xE000 <= point < 0x110000
  }

  /** The encoding of RFC 3629, section 3. */
  function Utf8(point: nat): Bytes
    requires point < 0x110000
  {
    if point < 0x80 then [point]
    else if point < 0x800 then [192 + point / 64, 128 + point % 64]
    else if point < 0x10000 then [224 + point / 4096, 128 + point / 64 % 64, 128 + point % 64]
    else [240 + point / 262144, 128 + point / 4096 % 64, 128 + point / 64 % 64, 128 + point % 64]
  }

  /** Every scalar value's encoding is one well-formed character. */
  lemma ScalarIsWellFormed(point: nat)
    requires Scalar(point)
    ensures CharLen(Utf8(point)) == |Utf8(point)|
  {}

  lemma SixBits(high: nat, low: nat)
    requires low < 64
    ensures (high * 64 + low) / 64 == high && (high * 64 + low) % 64 == low
  {}

  lemma TwoBytes(b: nat, c: nat)
    requires 0xC2 <= b <= 0xDF && 0x80 <= c <= 0xBF
    ensures Utf8((b - 192) * 64 + (c - 128)) == [b, c]
  {
    SixBits(b - 192, c - 128);
  }

  lemma ThreeBytes(b: nat, c: nat, d: nat)
    requires 0xE0 <= b <= 0xEF && 0x80 <= c <= 0xBF && 0x80 <= d <= 0xBF && (b == 0xE0 ==> c >= 0xA0)
    ensures Utf8((b - 224) * 4096 + (c - 128) * 64 + (d - 128)) == [b, c, d]
  {
    var high := (b - 224) * 64 + (c - 128);
    SixBits(high, d - 128);
    SixBits(b - 224, c - 128);
    assert high * 64 + (d - 128) == (b - 224) * 4096 + (c - 128) * 64 + (d - 128);
    assert high * 64 / 4096 == high / 64;
  }

  lemma FourByteChar(b: nat, c: nat, d: nat, e: nat)
    requires 0xF0 <= b <= 0xF4 && 0x80 <= c <= 0xBF && 0x80 <= d <= 0xBF && 0x80 <= e <= 0xBF
    requires (b == 0xF0 ==> c >= 0x90) && (b == 0xF4 ==> c <= 0x8F)
    ensures
      var point := (b - 240) * 262144 + (c - 128) * 4096 + (d - 128) * 64 + (e - 128);
      0x10000 <= point < 0x110000 && Utf8(point) == [b, c, d, e]
  {
    var top := (b - 240) * 64 + (c - 128);
    var high := top * 64 + (d - 128);
    var point := high * 64 + (e - 128);
    SixBits(b - 240, c - 128);
    SixBits(top, d - 128);
    SixBits(high, e - 128);
    assert point == (b - 240) * 262144 + (c - 128) * 4096 + (d - 128) * 64 + (e - 128);
    assert point / 64 == high && point / 4096 == top && point / 262144 == b - 240;
  }

  /** And every well-formed character is the encoding of a scalar value. */
  lemma WellFormedIsScalar(c: Bytes)
    requires c != [] && CharLen(c) == |c|
    ensures Scalar(CodePoint(c)) && Utf8(CodePoint(c)) == c
  {
    if |c| == 2 {
      TwoBytes(c[0], c[1]);
    } else if |c| == 3 {
      ThreeBytes(c[0], c[1], c[2]);
    } else if |c| == 4 {
      FourByteChar(c[0], c[1], c[2], c[3]);
    }
  }
}
