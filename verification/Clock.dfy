/** Wall-clock arithmetic: NTP timestamps (RFC 5905, section 6) and clock offsets. */
module Clocks {
  import opened ByteStrings

  const NTP_EPOCH_OFFSET: nat := 2_208_988_800
  const NANOS_PER_SECOND: nat := 1_000_000_000

  type i64 = x: int | -0x8000_0000_0000_0000 <= x < 0x8000_0000_0000_0000

  datatype ClockOffset = ClockOffset(offsetNs: i64, errorNs: u64, rttNs: u64)

  /** Conversion to a 64-bit signed number, keeping the low bits. */
  function CastI64(x: int): i64 {
    var low := x % TWO_64;
    if low < 0x8000_0000_0000_0000 then low else low - TWO_64
  }

  function ApplyOffset(localNs: u64, offset: ClockOffset): u64 {
    (localNs + offset.offsetNs) % TWO_64
  }

  /** Seconds since 1900 in the high half, a binary fraction of a second in the low half. */
  function UnixToNtp(unixNs: u64): u64 {
    var seconds := unixNs / NANOS_PER_SECOND + NTP_EPOCH_OFFSET;
    var fraction := unixNs % NANOS_PER_SECOND * TWO_32 / NANOS_PER_SECOND;
    (seconds * TWO_32 + fraction) % TWO_64
  }

  /** The seconds still fit their 32 bits. */
  predicate InFirstEra(unixNs: u64) {
    unixNs / NANOS_PER_SECOND + NTP_EPOCH_OFFSET < TWO_32
  }

  lemma FractionFits(nanos: nat)
    requires nanos < NANOS_PER_SECOND
    ensures
      var fraction := nanos * TWO_32 / NANOS_PER_SECOND;
      && fraction < TWO_32
      && fraction * NANOS_PER_SECOND <= nanos * TWO_32 < (fraction + 1) * NANOS_PER_SECOND
  {}

  /** Within the era the timestamp is the true time rounded down to a unit of 2^-32 seconds. */
  lemma NtpBounds(unixNs: u64)
    requires InFirstEra(unixNs)
    ensures
      var ntp := UnixToNtp(unixNs);
      var since1900 := unixNs + 2_208_988_800 * 1_000_000_000;
      ntp * 1_000_000_000 <= since1900 * 0x1_0000_0000 < (ntp + 1) * 1_000_000_000
  {
    FractionFits(unixNs % NANOS_PER_SECOND);
  }

  /** One nanosecond is more than four units, so distinct times in order have stamps in order. */
  lemma NtpStrictlyIncreasing(a: u64, b: u64)
    requires InFirstEra(a) && InFirstEra(b) && a < b
    ensures UnixToNtp(a) < UnixToNtp(b)
  {
    NtpBounds(a);
    NtpBounds(b);
  }

  function CeilDiv(x: nat, d: nat): nat
    requires d > 0
  {
    (x + d - 1) / d
  }

  /** The nanoseconds are recovered exactly by rounding up. */
  lemma NtpRoundTrip(unixNs: u64)
    requires InFirstEra(unixNs)
    ensures CeilDiv(UnixToNtp(unixNs) * NANOS_PER_SECOND, TWO_32) - NTP_EPOCH_OFFSET * NANOS_PER_SECOND == unixNs
  {
    NtpBounds(unixNs);
    var x := UnixToNtp(unixNs) * NANOS_PER_SECOND;
    var t := unixNs + NTP_EPOCH_OFFSET * NANOS_PER_SECOND;
    assert x <= t * TWO_32 && x + TWO_32 - 1 >= t * TWO_32;
  }

  /** The epochs are seventy years apart, seventeen of them leap years. */
  lemma EpochsApart()
    ensures NTP_EPOCH_OFFSET == (70 * 365 + 17) * 24 * 60 * 60
  {}

  lemma SmallRemainder(high: nat, low: nat)
    requires low < TWO_32
    ensures (high * TWO_32 + low) % TWO_32 == low
  {}

  lemma WrapHigh(high: nat, low: nat)
    requires low < TWO_32
    ensures (high * TWO_32 + low) % TWO_64 == high % TWO_32 * TWO_32 + low
  {
    var wraps, rest := high / TWO_32, high % TWO_32 * TWO_32 + low;
    assert high * TWO_32 + low == TWO_64 * wraps + rest;
  }

  /** The fraction computed in 64 bits for a PTP sync packet never overflows, and is the NTP fraction. */
  lemma PtpFractionIsNtpFraction(ns: u64)
    ensures ns % NANOS_PER_SECOND * TWO_32 < TWO_64
    ensures ns % NANOS_PER_SECOND * TWO_32 / NANOS_PER_SECOND % TWO_32 == UnixToNtp(ns) % TWO_32
  {
    FractionFits(ns % NANOS_PER_SECOND);
    var seconds := ns / NANOS_PER_SECOND + NTP_EPOCH_OFFSET;
    var fraction := ns % NANOS_PER_SECOND * TWO_32 / NANOS_PER_SECOND;
    WrapHigh(seconds, fraction);
    SmallRemainder(seconds % TWO_32, fraction);
  }

  /** The seconds of a PTP sync packet are the NTP seconds counted from 1970. */
  lemma PtpSecondsAreNtpSeconds(ns: u64)
    ensures ns / NANOS_PER_SECOND % TWO_32 == (UnixToNtp(ns) / TWO_32 - NTP_EPOCH_OFFSET) % TWO_32
  {
    FractionFits(ns % NANOS_PER_SECOND);
    var seconds := ns / NANOS_PER_SECOND + NTP_EPOCH_OFFSET;
    var fraction := ns % NANOS_PER_SECOND * TWO_32 / NANOS_PER_SECOND;
    WrapHigh(seconds, fraction);
    assert UnixToNtp(ns) / TWO_32 == seconds % TWO_32;
  }
}
