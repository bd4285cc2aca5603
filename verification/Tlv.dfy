/** TLV8: type-length-value items whose values are split into fragments of at most 255 bytes. */
module Tlv {
  import opened Wrappers
  import opened ByteStrings
  import Sequences

  const METHOD: byte := 0x00
  const SALT: byte := 0x02
  const PUBLIC_KEY: byte := 0x03
  const PROOF: byte := 0x04
  const STATE: byte := 0x06
  const ERROR: byte := 0x07
  const FLAGS: byte := 0x13

  const MAX_FRAGMENT: nat := 255

  type Items = map<byte, Bytes>

  /** One fragment on the wire. */
  datatype Fragment = Fragment(typ: byte, value: Bytes)

  datatype ParseError = TruncatedHeader | TruncatedValue

  // ----- The wire, as a list of fragments -----

  ghost predicate Sized(fs: seq<Fragment>) {
    forall k :: 0 <= k < |fs| ==> |fs[k].value| <= MAX_FRAGMENT
  }

  function WireOne(f: Fragment): (r: Bytes)
    requires |f.value| <= MAX_FRAGMENT
    ensures |r| == 2 + |f.value|
  {
    [f.typ, |f.value|] + f.value
  }

  function Wire(fs: seq<Fragment>): Bytes
    requires Sized(fs)
  {
    if fs == [] then [] else WireOne(fs[0]) + Wire(fs[1..])
  }

  function Fragments(data: Bytes): (r: Result<seq<Fragment>, ParseError>)
    ensures r.Ok? ==> Sized(r.value)
  {
    if data == [] then
      Ok([])
    else if |data| < 2 then
      Err(TruncatedHeader)
    else
      var len := data[1] as int;
      if |data| < 2 + len then
        Err(TruncatedValue)
      else
        match Fragments(data[2 + len..])
        case Err(e) => Err(e)
        case Ok(rest) => Ok([Fragment(data[0], data[2..2 + len])] + rest)
  }

  // ----- The map a list of fragments stands for -----

  function Append(items: Items, f: Fragment): Items {
    items[f.typ := (if f.typ in items then items[f.typ] else []) + f.value]
  }

  function Merge(items: Items, fs: seq<Fragment>): Items
    decreases fs
  {
    if fs == [] then items else Merge(Append(items, fs[0]), fs[1..])
  }

  /** All values of one type, joined in wire order. */
  function ValueOf(fs: seq<Fragment>, typ: byte): Bytes {
    if fs == [] then []
    else (if fs[0].typ == typ then fs[0].value else []) + ValueOf(fs[1..], typ)
  }

  predicate Occurs(fs: seq<Fragment>, typ: byte) {
    fs != [] && (fs[0].typ == typ || Occurs(fs[1..], typ))
  }

  function ParseItems(data: Bytes): Result<Items, ParseError> {
    match Fragments(data)
    case Err(e) => Err(e)
    case Ok(fs) => Ok(Merge(map[], fs))
  }

  // ----- The fragments a map is printed as -----

  function Split(typ: byte, value: Bytes): (r: seq<Fragment>)
    ensures Sized(r)
  {
    if |value| <= MAX_FRAGMENT then [Fragment(typ, value)]
    else [Fragment(typ, value[..MAX_FRAGMENT])] + Split(typ, value[MAX_FRAGMENT..])
  }

  predicate IsLeast(t: byte, s: set<byte>) {
    t in s && forall u :: u in s ==> t <= u
  }

  lemma {:induction false} LeastExists(s: set<byte>)
    requires s != {}
    ensures exists t :: IsLeast(t, s)
  {
    var x :| x in s;
    if y :| y in s && y != x {
      assert y in s - {x};
      LeastExists(s - {x});
      var t :| IsLeast(t, s - {x});
      var least := if t <= x then t else x;
      forall u | u in s
        ensures least <= u
      {
        assert u == x || u in s - {x};
      }
      assert IsLeast(least, s);
    } else {
      assert IsLeast(x, s);
    }
  }

  function Least(s: set<byte>): (t: byte)
    requires s != {}
    ensures IsLeast(t, s)
  {
    LeastExists(s);
    var t :| IsLeast(t, s);
    t
  }

  /** The fragments of the items with the given types, in increasing order of type. */
  function SplitAll(items: Items, types: set<byte>): (r: seq<Fragment>)
    requires types <= items.Keys
    ensures Sized(r)
    decreases |types|
  {
    if types == {} then []
    else
      var t := Least(types);
      Split(t, items[t]) + SplitAll(items, types - {t})
  }

  function EncodeItems(items: Items): Bytes {
    Wire(SplitAll(items, items.Keys))
  }

  // ----- Wire and fragments are inverse to each other -----

  lemma {:induction false} FragmentsOfWire(fs: seq<Fragment>)
    requires Sized(fs)
    ensures Fragments(Wire(fs)) == Ok(fs)
  {
    if fs != [] {
      var w := Wire(fs);
      var len := |fs[0].value|;
      assert w[2..2 + len] == fs[0].value;
      assert w[2 + len..] == Wire(fs[1..]);
      FragmentsOfWire(fs[1..]);
      assert fs == [fs[0]] + fs[1..];
    }
  }

  lemma WireCons(f: Fragment, fs: seq<Fragment>)
    requires Sized([f] + fs)
    ensures |f.value| <= MAX_FRAGMENT && Sized(fs) && Wire([f] + fs) == WireOne(f) + Wire(fs)
  {
    var all := [f] + fs;
    assert all[0] == f && all[1..] == fs;
  }

  lemma HeaderThenValue(data: Bytes, end: nat)
    requires 2 <= end <= |data|
    ensures [data[0], data[1]] + data[2..end] + data[end..] == data
  {}

  lemma {:induction false} WireOfFragments(data: Bytes)
    requires Fragments(data).Ok?
    ensures Wire(Fragments(data).value) == data
  {
    if data != [] {
      var end := 2 + data[1] as int;
      var rest := data[end..];
      WireOfFragments(rest);
      var f := Fragment(data[0], data[2..end]);
      var tail := Fragments(rest).value;
      assert Fragments(data).value == [f] + tail;
      WireCons(f, tail);
      HeaderThenValue(data, end);
    }
  }

  /** Parsing succeeds exactly on the byte strings that are a sequence of whole fragments. */
  lemma ParsesExactly(data: Bytes)
    ensures ParseItems(data).Ok? <==> exists fs :: Sized(fs) && Wire(fs) == data
  {
    if Fragments(data).Ok? {
      WireOfFragments(data);
    }
    forall fs | Sized(fs) && Wire(fs) == data
      ensures ParseItems(data).Ok?
    {
      FragmentsOfWire(fs);
    }
  }

  // ----- What merging means -----

  lemma {:induction false} MergeMeaning(items: Items, fs: seq<Fragment>, typ: byte)
    ensures typ in Merge(items, fs) <==> typ in items || Occurs(fs, typ)
    ensures typ in Merge(items, fs) ==>
      Merge(items, fs)[typ] == (if typ in items then items[typ] else []) + ValueOf(fs, typ)
    decreases fs
  {
    if fs != [] {
      MergeMeaning(Append(items, fs[0]), fs[1..], typ);
    }
  }

  /** A parsed value is the concatenation of every fragment of its type, adjacent or not. */
  lemma ParseMeaning(data: Bytes, typ: byte)
    requires ParseItems(data).Ok?
    ensures
      var fs := Fragments(data).value;
      var items := ParseItems(data).value;
      && (typ in items <==> Occurs(fs, typ))
      && (typ in items ==> items[typ] == ValueOf(fs, typ))
  {
    MergeMeaning(map[], Fragments(data).value, typ);
  }

  lemma {:induction false} ValueOfConcat(fs: seq<Fragment>, gs: seq<Fragment>, typ: byte)
    ensures ValueOf(fs + gs, typ) == ValueOf(fs, typ) + ValueOf(gs, typ)
    ensures Occurs(fs + gs, typ) <==> Occurs(fs, typ) || Occurs(gs, typ)
  {
    if fs == [] {
      assert fs + gs == gs;
    } else {
      assert (fs + gs)[1..] == fs[1..] + gs;
      ValueOfConcat(fs[1..], gs, typ);
    }
  }

  lemma {:induction false} SplitMeaning(typ: byte, value: Bytes, t: byte)
    ensures Occurs(Split(typ, value), t) <==> t == typ
    ensures ValueOf(Split(typ, value), t) == if t == typ then value else []
  {
    if |value| > MAX_FRAGMENT {
      var rest := Split(typ, value[MAX_FRAGMENT..]);
      assert Split(typ, value)[1..] == rest;
      SplitMeaning(typ, value[MAX_FRAGMENT..], t);
      assert value == value[..MAX_FRAGMENT] + value[MAX_FRAGMENT..];
    } else {
      assert Split(typ, value)[1..] == [];
    }
  }

  lemma {:induction false} SplitAllMeaning(items: Items, types: set<byte>, typ: byte)
    requires types <= items.Keys
    ensures Occurs(SplitAll(items, types), typ) <==> typ in types
    ensures ValueOf(SplitAll(items, types), typ) == if typ in types then items[typ] else []
    decreases |types|
  {
    if types != {} {
      var t := Least(types);
      SplitAllMeaning(items, types - {t}, typ);
      ValueOfConcat(Split(t, items[t]), SplitAll(items, types - {t}), typ);
      SplitMeaning(t, items[t], typ);
    }
  }

  lemma {:induction false} SplitTypes(typ: byte, value: Bytes)
    ensures forall k :: 0 <= k < |Split(typ, value)| ==> Split(typ, value)[k].typ == typ
  {
    if |value| > MAX_FRAGMENT {
      SplitTypes(typ, value[MAX_FRAGMENT..]);
    }
  }

  ghost predicate TypesIn(fs: seq<Fragment>, types: set<byte>) {
    forall k :: 0 <= k < |fs| ==> fs[k].typ in types
  }

  ghost predicate InOrder(fs: seq<Fragment>) {
    forall j, k :: 0 <= j < k < |fs| ==> fs[j].typ <= fs[k].typ
  }

  lemma OrderedConcat(head: seq<Fragment>, rest: seq<Fragment>, t: byte, types: set<byte>)
    requires TypesIn(head, {t}) && TypesIn(rest, types) && InOrder(rest)
    requires forall u :: u in types ==> t <= u
    ensures TypesIn(head + rest, {t} + types) && InOrder(head + rest)
  {
    var fs := head + rest;
    forall k | 0 <= k < |fs|
      ensures fs[k].typ == if k < |head| then t else rest[k - |head|].typ
    {
      if k < |head| { assert head[k].typ in {t}; }
    }
    forall j, k | 0 <= j < k < |fs|
      ensures fs[j].typ <= fs[k].typ
    {}
  }

  /** Items are printed in increasing order of type. */
  lemma {:induction false} PrintedInOrder(items: Items, types: set<byte>)
    requires types <= items.Keys
    ensures TypesIn(SplitAll(items, types), types) && InOrder(SplitAll(items, types))
    decreases |types|
  {
    if types != {} {
      var t := Least(types);
      SplitTypes(t, items[t]);
      PrintedInOrder(items, types - {t});
      OrderedConcat(Split(t, items[t]), SplitAll(items, types - {t}), t, types - {t});
      assert {t} + (types - {t}) == types;
    }
  }

  /** Parsing what was printed gives back the same map: empty, short and long values alike. */
  lemma RoundTrip(items: Items)
    ensures ParseItems(EncodeItems(items)) == Ok(items)
  {
    var fs := SplitAll(items, items.Keys);
    FragmentsOfWire(fs);
    var parsed := Merge(map[], fs);
    forall typ: byte
      ensures typ in parsed <==> typ in items
      ensures typ in items ==> parsed[typ] == items[typ]
    {
      SplitAllMeaning(items, items.Keys, typ);
      MergeMeaning(map[], fs, typ);
    }
    assert parsed == items;
  }

  /** Printing is a canonical form: two inputs mean the same map exactly when it is the same bytes. */
  lemma CanonicalForm(data: Bytes, other: Bytes)
    requires ParseItems(data).Ok? && ParseItems(other).Ok?
    ensures
      var canonical := EncodeItems(ParseItems(data).value);
      && ParseItems(canonical) == ParseItems(data)
      && EncodeItems(ParseItems(canonical).value) == canonical
      && (ParseItems(other) == ParseItems(data) <==> EncodeItems(ParseItems(other).value) == canonical)
  {
    RoundTrip(ParseItems(data).value);
    RoundTrip(ParseItems(other).value);
  }

  /** The printed form is as long as its values plus two bytes for each fragment. */
  lemma {:induction false} SplitSize(typ: byte, value: Bytes)
    ensures |Split(typ, value)| == if value == [] then 1 else (|value| + 254) / 255
    ensures |Wire(Split(typ, value))| == |value| + 2 * |Split(typ, value)|
  {
    if |value| > MAX_FRAGMENT {
      SplitSize(typ, value[MAX_FRAGMENT..]);
      assert Split(typ, value)[1..] == Split(typ, value[MAX_FRAGMENT..]);
    } else {
      assert Split(typ, value)[1..] == [];
    }
  }

  /** The item of the least type comes first: type, length and value, when it is short. */
  lemma ShortItemFirst(items: Items, types: set<byte>, typ: byte)
    requires types <= items.Keys && IsLeast(typ, types) && |items[typ]| <= 255
    ensures Wire(SplitAll(items, types))
            == [typ, |items[typ]|] + items[typ] + Wire(SplitAll(items, types - {typ}))
  {
    var f := Fragment(typ, items[typ]);
    assert Least(types) == typ;
    WireCons(f, SplitAll(items, types - {typ}));
  }

  /** A value of 256 to 510 bytes is printed as a full fragment and one with the rest. */
  lemma LongItem(typ: byte, value: Bytes)
    requires 255 < |value| <= 510
    ensures Wire(Split(typ, value)) == [typ, 255] + value[..255] + [typ, |value| - 255] + value[255..]
  {
    var first, last := Fragment(typ, value[..255]), Fragment(typ, value[255..]);
    assert Split(typ, value) == [first] + [last];
    WireCons(first, [last]);
    WireCons(last, []);
    assert Wire([last] + []) == WireOne(last) + [];
    assert [last] + [] == [last];
  }

  /** A result with the fragments already read put back in front. */
  ghost function After(seen: seq<Fragment>, rest: Result<seq<Fragment>, ParseError>)
    : Result<seq<Fragment>, ParseError>
  {
    match rest
    case Err(e) => Err(e)
    case Ok(fs) => Ok(seen + fs)
  }

  lemma {:induction false} MergeSnoc(items: Items, fs: seq<Fragment>, f: Fragment)
    ensures Merge(items, fs + [f]) == Append(Merge(items, fs), f)
    decreases fs
  {
    if fs == [] {
      assert (fs + [f])[1..] == [];
    } else {
      assert (fs + [f])[1..] == fs[1..] + [f];
      MergeSnoc(Append(items, fs[0]), fs[1..], f);
    }
  }

  lemma {:induction false} WireConcat(fs: seq<Fragment>, gs: seq<Fragment>)
    requires Sized(fs) && Sized(gs)
    ensures Wire(fs + gs) == Wire(fs) + Wire(gs)
  {
    if fs == [] {
      assert fs + gs == gs;
    } else {
      assert (fs + gs)[1..] == fs[1..] + gs;
      WireConcat(fs[1..], gs);
    }
  }

  /** The fragments still to print when the first `at` bytes of a value are out. */
  ghost function WireFrom(typ: byte, value: Bytes, at: nat): Bytes
    requires at <= |value|
  {
    if at == |value| then [] else Wire(Split(typ, value[at..]))
  }

  lemma FirstChunk(typ: byte, value: Bytes, at: nat)
    requires at < |value|
    ensures
      var size := if |value| - at < MAX_FRAGMENT then |value| - at else MAX_FRAGMENT;
      WireFrom(typ, value, at) == WireOne(Fragment(typ, value[at..at + size])) + WireFrom(typ, value, at + size)
  {
    var rest := value[at..];
    if |rest| > MAX_FRAGMENT {
      assert rest[MAX_FRAGMENT..] == value[at + MAX_FRAGMENT..];
      assert rest[..MAX_FRAGMENT] == value[at..at + MAX_FRAGMENT];
      assert Split(typ, rest)[1..] == Split(typ, rest[MAX_FRAGMENT..]);
    } else {
      assert Split(typ, rest)[1..] == [];
      assert rest == value[at..at + |rest|];
      assert Wire(Split(typ, rest)) == WireOne(Fragment(typ, rest)) + [];
    }
  }

  lemma PushStep(result: Bytes, typ: byte, value: Bytes, at: nat)
    requires at < |value|
    ensures
      var size := if |value| - at < MAX_FRAGMENT then |value| - at else MAX_FRAGMENT;
      result + ([typ, size] + value[at..at + size]) + WireFrom(typ, value, at + size)
      == result + WireFrom(typ, value, at)
  {
    var size := if |value| - at < MAX_FRAGMENT then |value| - at else MAX_FRAGMENT;
    FirstChunk(typ, value, at);
    Sequences.Associative(result, WireOne(Fragment(typ, value[at..at + size])), WireFrom(typ, value, at + size));
  }

  /** What the parser finds at offset `i`. */
  lemma NextFragment(data: Bytes, i: nat)
    requires i < |data|
    ensures
      if i + 2 > |data| then Fragments(data[i..]) == Err(TruncatedHeader) else
      var end := i + 2 + data[i + 1] as int;
      if end > |data| then Fragments(data[i..]) == Err(TruncatedValue) else
      Fragments(data[i..]) == After([Fragment(data[i], data[i + 2..end])], Fragments(data[end..]))
  {
    if i + 2 <= |data| {
      var rest := data[i..];
      var end := i + 2 + data[i + 1] as int;
      if end <= |data| {
        assert rest[2..end - i] == data[i + 2..end];
        assert rest[end - i..] == data[end..];
      }
    }
  }

  lemma AfterNothing(rest: Result<seq<Fragment>, ParseError>)
    ensures After([], rest) == rest
  {
    if rest.Ok? { assert [] + rest.value == rest.value; }
  }

  lemma AfterSnoc(seen: seq<Fragment>, f: Fragment, rest: Result<seq<Fragment>, ParseError>)
    ensures After(seen, After([f], rest)) == After(seen + [f], rest)
  {
    if rest.Ok? {
      assert seen + ([f] + rest.value) == (seen + [f]) + rest.value;
    }
  }

  /** A TLV8 message under construction or just parsed. */
  class Tlv8 {
    var items: Items

    constructor ()
      ensures items == map[]
    {
      items := map[];
    }

    constructor Of(items: Items)
      ensures this.items == items
    {
      this.items := items;
    }

    static method Parse(data: Bytes) returns (r: Result<Tlv8, ParseError>)
      ensures match ParseItems(data)
              case Ok(parsed) => r.Ok? && fresh(r.value) && r.value.items == parsed
              case Err(e) => r == Err(e)
    {
      var parsed := ReadItems(data);
      if parsed.Err? {
        return Err(parsed.error);
      }
      var tlv := new Tlv8.Of(parsed.value);
      r := Ok(tlv);
    }

    static method ReadItems(data: Bytes) returns (r: Result<Items, ParseError>)
      ensures r == ParseItems(data)
    {
      var items: Items := map[];
      var i := 0;
      var lastType: Option<byte> := None;
      ghost var seen: seq<Fragment> := [];
      assert data[0..] == data;
      AfterNothing(Fragments(data));
      while i < |data|
        invariant 0 <= i <= |data|
        invariant items == Merge(map[], seen)
        invariant lastType.Some? ==> lastType.value in items
        invariant Fragments(data) == After(seen, Fragments(data[i..]))
      {
        NextFragment(data, i);
        if i + 2 > |data| {
          return Err(TruncatedHeader);
        }
        var typ, len := data[i], data[i + 1] as int;
        i := i + 2;
        if i + len > |data| {
          return Err(TruncatedValue);
        }
        var value := data[i..i + len];
        i := i + len;
        ghost var f := Fragment(typ, value);
        MergeSnoc(map[], seen, f);
        AfterSnoc(seen, f, Fragments(data[i..]));
        seen := seen + [f];
        if Some(typ) == lastType {
          items := items[typ := items[typ] + value];
        } else {
          items := items[typ := (if typ in items then items[typ] else []) + value];
        }
        lastType := Some(typ);
      }
      assert data[i..] == [] && seen + [] == seen;
      r := Ok(items);
    }

    /** Appends one item to the output, fragment by fragment. */
    static method PushItem(out: Bytes, typ: byte, value: Bytes) returns (result: Bytes)
      ensures result == out + Wire(Split(typ, value))
    {
      if value == [] {
        assert Split(typ, value)[1..] == [];
        assert WireOne(Fragment(typ, value)) + [] == [typ, 0];
        result := out + [typ, 0];
      } else {
        result := out;
        var at := 0;
        assert value[0..] == value;
        while at < |value|
          invariant 0 <= at <= |value|
          invariant result + WireFrom(typ, value, at) == out + Wire(Split(typ, value))
        {
          var size := if |value| - at < MAX_FRAGMENT then |value| - at else MAX_FRAGMENT;
          var chunk := value[at..at + size];
          PushStep(result, typ, value, at);
          result := result + ([typ, size] + chunk);
          at := at + size;
        }
      }
    }

    method Encode() returns (result: Bytes)
      ensures result == EncodeItems(items)
    {
      result := [];
      var types := items.Keys;
      while types != {}
        invariant types <= items.Keys
        invariant result + Wire(SplitAll(items, types)) == EncodeItems(items)
        decreases |types|
      {
        var typ := Least(types);
        var rest := types - {typ};
        WireConcat(Split(typ, items[typ]), SplitAll(items, rest));
        Sequences.Associative(result, Wire(Split(typ, items[typ])), Wire(SplitAll(items, rest)));
        result := PushItem(result, typ, items[typ]);
        types := rest;
      }
    }

    method Set(typ: byte, value: Bytes)
      modifies this
      ensures items == old(items)[typ := value]
    {
      items := items[typ := value];
    }

    function Get(typ: byte): Option<Bytes>
      reads this
    {
      Lookup(items, typ)
    }

    function State(): Option<byte>
      reads this
    {
      FirstByte(items, STATE)
    }

    function Error(): Option<byte>
      reads this
    {
      FirstByte(items, ERROR)
    }
  }

  function Lookup(items: Items, typ: byte): Option<Bytes> {
    if typ in items then Some(items[typ]) else None
  }

  /** The first byte of an item, if the item is present and not empty. */
  function FirstByte(items: Items, typ: byte): Option<byte> {
    if typ in items && items[typ] != [] then Some(items[typ][0]) else None
  }
}
