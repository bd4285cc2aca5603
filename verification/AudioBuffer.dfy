/** The bounded FIFO of PCM frames between decoder and encoder. */
module AudioBuffers {
  import ModArith

  /** Interleaved samples. */
  type Pcm = seq<int>

  datatype Format = Format(sampleRate: nat, channels: nat, framesPerPacket: nat) {
    /** The number of samples in one packet. */
    function PacketSamples(): nat {
      ModArith.MulNonNegative(framesPerPacket, channels);
      framesPerPacket * channels
    }
  }

  /** How many packets fit in so many milliseconds; at least one. */
  function CapacityFrames(format: Format, capacityMs: nat): (r: nat)
    ensures r >= 1
  {
    ModArith.MulNonNegative(format.sampleRate / 1000, capacityMs);
    var samples := format.sampleRate / 1000 * capacityMs;
    var frames: nat := if format.framesPerPacket == 0 then 1 else samples / format.framesPerPacket;
    if frames < 1 then 1 else frames
  }

  /** As many whole packets as the samples of that time make, but at least one. */
  lemma CapacityIs(format: Format, capacityMs: nat)
    requires format.framesPerPacket > 0
    ensures
      var r := CapacityFrames(format, capacityMs);
      && format.sampleRate / 1000 * capacityMs < (r + 1) * format.framesPerPacket
      && (r > 1 ==> r * format.framesPerPacket <= format.sampleRate / 1000 * capacityMs)
  {
    var samples := format.sampleRate / 1000 * capacityMs;
    ModArith.MulNonNegative(format.sampleRate / 1000, capacityMs);
    var q := samples / format.framesPerPacket;
    assert samples == q * format.framesPerPacket + samples % format.framesPerPacket;
    var r := CapacityFrames(format, capacityMs);
    if q >= 1 {
      assert r == q;
    } else {
      assert r == 1 && q == 0;
      ModArith.MulMonotone(1, r + 1, format.framesPerPacket);
    }
    assert (q + 1) * format.framesPerPacket == q * format.framesPerPacket + format.framesPerPacket;
  }

  /** Two seconds at the library's rates and packet sizes. */
  lemma LibraryCapacities(channels: nat)
    ensures CapacityFrames(Format(44_100, channels, 352), 2000) == 250
    ensures CapacityFrames(Format(48_000, channels, 352), 2000) == 272
    ensures CapacityFrames(Format(44_100, channels, 1024), 2000) == 85
    ensures CapacityFrames(Format(48_000, channels, 1024), 2000) == 93
  {}

  /** The fill percentage is at least this much, compared exactly. */
  predicate FilledTo(length: nat, capacity: nat, percent: nat) {
    length * 100 >= percent * capacity
  }

  predicate FilledBeyond(length: nat, capacity: nat, percent: nat) {
    length * 100 > percent * capacity
  }

  class AudioBuffer {
    const capacity: nat
    var frames: seq<Pcm>

    constructor (format: Format, capacityMs: nat)
      ensures frames == [] && capacity == CapacityFrames(format, capacityMs)
    {
      capacity := CapacityFrames(format, capacityMs);
      frames := [];
    }

    /** False, and no change, when the buffer is full. */
    method Push(frame: Pcm) returns (ok: bool)
      modifies this
      ensures ok <==> |old(frames)| < capacity
      ensures frames == if ok then old(frames) + [frame] else old(frames)
    {
      if |frames| >= capacity {
        return false;
      }
      frames := frames + [frame];
      ok := true;
    }

    /** The oldest frame, removed; or nothing. */
    method Pop() returns (found: bool, frame: Pcm)
      modifies this
      ensures found <==> old(frames) != []
      ensures found ==> [frame] + frames == old(frames)
      ensures !found ==> frames == old(frames) && frame == []
    {
      if frames == [] {
        return false, [];
      }
      found, frame := true, frames[0];
      frames := frames[1..];
    }

    method Flush() returns (flushed: seq<Pcm>)
      modifies this
      ensures flushed == old(frames) && frames == []
    {
      flushed := frames;
      frames := [];
    }
  }
}
