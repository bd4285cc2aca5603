/** Bytes, machine-width integers and their big- and little-endian forms. */
module ByteStrings {
  import ModArith

  const TWO_16: int := 0x1_0000
  const TWO_32: int := 0x1_0000_0000
  const TWO_64: int := 0x1_0000_0000_0000_0000

  type byte = x: int | 0 <= x < 256
  type u16 = x: int | 0 <= x < TWO_16
  type u32 = x: int | 0 <= x < TWO_32
  type u64 = x: int | 0 <= x < TWO_64

  type Bytes = seq<byte>

  /** ASCII text as bytes; characters outside ASCII do not occur in the literals used here. */
  function Ascii(s: string): (r: Bytes)
    ensures |r| == |s|
  {
    seq(|s|, i requires 0 <= i < |s| => if s[i] < 128 as char then s[i] as int else 63)
  }

  function Zeros(n: nat): (r: Bytes)
    ensures |r| == n
  {
    seq(n, _ => 0)
  }

  function U16Be(n: u16): (r: Bytes)
    ensures |r| == 2
  {
    [n / 256, n % 256]
  }

  function U16Le(n: u16): (r: Bytes)
    ensures |r| == 2
  {
    [n % 256, n / 256]
  }

  function U32Be(n: u32): (r: Bytes)
    ensures |r| == 4
  {
    [n / 0x100_0000, n / 0x1_0000 % 256, n / 256 % 256, n % 256]
  }

  /** The `width` low-order bytes of `n`, least significant first. */
  function ToLe(n: nat, width: nat): (r: Bytes)
    ensures |r| == width
  {
    if width == 0 then [] else [n % 256] + ToLe(n / 256, width - 1)
  }

  function FromU32Be(s: Bytes): u32
    requires |s| == 4
  {
    s[0] as int * 0x100_0000 + s[1] as int * 0x1_0000 + s[2] as int * 256 + s[3] as int
  }

  lemma U32RoundTrip(n: u32)
    ensures FromU32Be(U32Be(n)) == n
  {
    var a := n / 256;
    var b := a / 256;
    assert n / 0x1_0000 == b && n / 0x100_0000 == b / 256;
  }

  /** The `width` low-order bytes of `n`, most significant first. */
  function ToBe(n: nat, width: nat): (r: Bytes)
    ensures |r| == width
  {
    if width == 0 then [] else ToBe(n / 256, width - 1) + [n % 256]
  }

  /** The value of a big-endian byte string of any length. */
  function FromBe(s: Bytes): nat {
    if s == [] then 0 else FromBe(s[..|s| - 1]) * 256 + s[|s| - 1] as int
  }

  /** The shortest big-endian form; zero is the single byte 0. */
  function ToBeMinimal(n: nat): (r: Bytes)
    ensures |r| > 0
  {
    if n < 256 then [n] else ToBeMinimal(n / 256) + [n % 256]
  }

  function PowerOf256(k: nat): (r: nat)
    ensures r > 0
  {
    if k == 0 then 1 else 256 * PowerOf256(k - 1)
  }

  /** The number of bytes a value takes. */
  function Width(n: nat): (r: nat)
    ensures r > 0
  {
    if n < 256 then 1 else 1 + Width(n / 256)
  }

  /** A value in `width` bytes, most significant first: each byte is a digit of its own weight. */
  function Digits(n: nat, width: nat): (r: Bytes)
    ensures |r| == width
  {
    seq(width, i requires 0 <= i < width => n / PowerOf256(width - 1 - i) % 256)
  }

  function FromU16Be(s: Bytes): u16
    requires |s| == 2
  {
    (s[0] as int) * 256 + s[1] as int
  }

  function FromU16Le(s: Bytes): u16
    requires |s| == 2
  {
    (s[0] as int) + (s[1] as int) * 256
  }

  lemma FromBeSnoc(s: Bytes, b: byte)
    ensures FromBe(s + [b]) == FromBe(s) * 256 + b
  {
    assert (s + [b])[..|s|] == s;
  }

  /** Four bytes in network order, by the general rule. */
  lemma FourBytes(s: Bytes)
    requires |s| == 4
    ensures FromU32Be(s) == FromBe(s)
  {
    var empty: Bytes := [];
    FromBeSnoc(empty, s[0]);
    FromBeSnoc(empty + [s[0]], s[1]);
    FromBeSnoc(empty + [s[0]] + [s[1]], s[2]);
    FromBeSnoc(empty + [s[0]] + [s[1]] + [s[2]], s[3]);
    assert s == empty + [s[0]] + [s[1]] + [s[2]] + [s[3]];
  }

  lemma {:induction false} ToBeMinimalValue(n: nat)
    ensures FromBe(ToBeMinimal(n)) == n
  {
    if n < 256 {
      assert FromBe([n][..0]) == 0;
    } else {
      ToBeMinimalValue(n / 256);
      var s := ToBeMinimal(n / 256) + [n % 256];
      assert s[..|s| - 1] == ToBeMinimal(n / 256);
    }
  }

  /** A value below 256^k has at most k bytes, apart from the one byte of zero. */
  lemma {:induction false} ToBeMinimalLength(n: nat, k: nat)
    requires k > 0 && n < PowerOf256(k)
    ensures |ToBeMinimal(n)| <= k
  {
    if n >= 256 {
      assert k > 1;
      ToBeMinimalLength(n / 256, k - 1);
    }
  }

  lemma DivDiv(n: nat, p: nat)
    requires p > 0
    ensures n / 256 / p == n / (256 * p)
  {
    var q := n / 256;
    var t := q / p;
    var low := n % 256 + 256 * (q % p);
    assert q == t * p + q % p;
    assert n == t * (256 * p) + low by {
      assert 256 * (t * p) == t * (256 * p);
    }
    assert 256 * (q % p) <= 256 * (p - 1);
    ModArith.DivModUnique(n, t, low, 256 * p);
  }

  /** The value of a width is below the next power, so that no digit is lost. */
  lemma {:induction false} WidthSuffices(n: nat)
    ensures n < PowerOf256(Width(n))
  {
    if n >= 256 {
      WidthSuffices(n / 256);
    }
  }

  lemma {:induction false} PowersGrow(i: nat, j: nat)
    requires i <= j
    ensures PowerOf256(i) <= PowerOf256(j)
  {
    if i < j {
      PowersGrow(i, j - 1);
    }
  }

  /** The last digit is the remainder, and the others are those of the quotient. */
  lemma DigitsSnoc(n: nat, width: nat)
    ensures Digits(n, width + 1) == Digits(n / 256, width) + [n % 256]
  {
    forall i | 0 <= i < width
      ensures Digits(n, width + 1)[i] == Digits(n / 256, width)[i]
    {
      DivDiv(n, PowerOf256(width - 1 - i));
      assert PowerOf256(width - i) == 256 * PowerOf256(width - 1 - i);
    }
    assert PowerOf256(0) == 1;
  }

  /** The shortest form is made of the digits of the value. */
  lemma {:induction false} MinimalDigits(n: nat)
    ensures ToBeMinimal(n) == Digits(n, Width(n))
  {
    if n < 256 {
      DigitsSnoc(n, 0);
      assert Digits(n / 256, 0) + [n % 256] == [n];
    } else {
      MinimalDigits(n / 256);
      DigitsSnoc(n, Width(n / 256));
    }
  }

  /** The last digits of a longer form are the digits of the shorter one. */
  lemma LastDigits(n: nat, long: nat, width: nat)
    requires width <= long
    ensures Digits(n, long)[long - width..] == Digits(n, width)
  {
    var tail := Digits(n, long)[long - width..];
    forall i | 0 <= i < width
      ensures tail[i] == Digits(n, width)[i]
    {
      assert tail[i] == Digits(n, long)[long - width + i];
    }
  }

  /** Beyond the width of a value its digits are zero. */
  lemma LeadingDigits(n: nat, width: nat, i: nat)
    requires i < width - Width(n)
    ensures Digits(n, width)[i] == 0
  {
    WidthSuffices(n);
    PowersGrow(Width(n), width - 1 - i);
    ModArith.DivModUnique(n, 0, n, PowerOf256(width - 1 - i));
  }

  /** Cutting the shortest form to its last bytes, or extending it with zeros, gives the digits. */
  lemma CutOrExtended(n: nat, width: nat)
    ensures
      var bytes := ToBeMinimal(n);
      (if |bytes| >= width then bytes[|bytes| - width..] else Zeros(width - |bytes|) + bytes)
      == Digits(n, width)
  {
    var w := Width(n);
    MinimalDigits(n);
    if w >= width {
      LastDigits(n, w, width);
    } else {
      LastDigits(n, width, w);
      var digits := Digits(n, width);
      assert digits[..width - w] == Zeros(width - w) by {
        forall i | 0 <= i < width - w
          ensures digits[i] == 0
        {
          LeadingDigits(n, width, i);
        }
      }
      assert digits == digits[..width - w] + digits[width - w..];
    }
  }

  lemma {:induction false} ToBeValue(n: nat, width: nat)
    requires n < PowerOf256(width)
    ensures FromBe(ToBe(n, width)) == n
  {
    if width > 0 {
      ToBeValue(n / 256, width - 1);
      var s := ToBe(n, width);
      assert s[..|s| - 1] == ToBe(n / 256, width - 1);
    }
  }

  /** Leading zero bytes do not change a big-endian value. */
  lemma {:induction false} LeadingZeros(k: nat, s: Bytes)
    ensures FromBe(Zeros(k) + s) == FromBe(s)
    decreases k + |s|
  {
    var t := Zeros(k) + s;
    if s == [] {
      if k > 0 {
        assert t[..|t| - 1] == Zeros(k - 1) + [];
        LeadingZeros(k - 1, []);
      }
    } else {
      assert t[..|t| - 1] == Zeros(k) + s[..|s| - 1];
      LeadingZeros(k, s[..|s| - 1]);
    }
  }

  /** Byte i of the little-endian form is the digit of weight 256^i. */
  lemma {:induction false} ToLeAt(n: nat, width: nat, i: nat)
    requires i < width
    ensures ToLe(n, width)[i] == n / PowerOf256(i) % 256
  {
    if i > 0 {
      ToLeAt(n / 256, width - 1, i - 1);
      DivDiv(n, PowerOf256(i - 1));
      assert ToLe(n, width)[i] == ToLe(n / 256, width - 1)[i - 1];
    }
  }

  /** Distinct counters below 256^width have distinct little-endian forms. */
  lemma {:induction false} ToLeInjective(m: nat, n: nat, width: nat)
    requires m < PowerOf256(width) && n < PowerOf256(width)
    requires ToLe(m, width) == ToLe(n, width)
    ensures m == n
  {
    if width > 0 {
      assert ToLe(m, width)[0] == ToLe(n, width)[0];
      assert ToLe(m, width)[1..] == ToLe(m / 256, width - 1);
      assert ToLe(n, width)[1..] == ToLe(n / 256, width - 1);
      ToLeInjective(m / 256, n / 256, width - 1);
    }
  }

  lemma SpaceOf64Bits(width: nat)
    requires width == 8
    ensures PowerOf256(width) == TWO_64
  {
    assert PowerOf256(4) == TWO_32;
    assert PowerOf256(8) == 256 * (256 * (256 * (256 * PowerOf256(4))));
  }
}
