/** The packet encoder: buffering and timestamps around an opaque codec. */
module Encoders {
  import opened AudioBuffers
  import ModArith

  datatype Encoder = Encoder(buffer: Pcm, timestamp: nat)

  /** What is handed to the codec for one packet, its length in frames and its timestamp. */
  datatype EncodedPacket = EncodedPacket(pcm: Pcm, frames: nat, timestamp: nat)

  datatype Encoded = Encoded(encoder: Encoder, packet: EncodedPacket)

  const NEW_ENCODER := Encoder([], 0)

  function EncodeFrame(e: Encoder, channels: nat, samples: Pcm): Encoded
    requires channels > 0
  {
    var frames := |samples| / channels;
    Encoded(e.(timestamp := e.timestamp + frames), EncodedPacket(samples, frames, e.timestamp))
  }

  /** One packet's worth from the front of the buffer, or all of it if there is less. */
  function Encode(e: Encoder, format: Format, samples: Pcm): Encoded
    requires format.channels > 0
  {
    var all := e.buffer + samples;
    var size := format.PacketSamples();
    if |all| >= size then EncodeFrame(e.(buffer := all[size..]), format.channels, all[..size])
    else EncodeFrame(e.(buffer := []), format.channels, all)
  }

  lemma WholePackets(m: nat, n: nat)
    requires n > 0
    ensures m * n / n == m
  {
    ModArith.DivModUnique(m * n, m, 0, n);
  }

  /** Full-size packets pass through an empty encoder unchanged and advance it by exactly one packet. */
  lemma FullPacket(e: Encoder, format: Format, samples: Pcm)
    requires format.channels > 0 && e.buffer == [] && |samples| == format.PacketSamples()
    ensures Encode(e, format, samples)
            == Encoded(Encoder([], e.timestamp + format.framesPerPacket),
                       EncodedPacket(samples, format.framesPerPacket, e.timestamp))
  {
    assert e.buffer + samples == samples;
    WholePackets(format.framesPerPacket, format.channels);
    assert samples[..|samples|] == samples && samples[|samples|..] == [];
  }

  /** Whatever comes in goes out with the packet or stays behind, and time advances by what went out. */
  lemma EncodeKeeps(e: Encoder, format: Format, samples: Pcm)
    requires format.channels > 0
    ensures
      var r := Encode(e, format, samples);
      && r.packet.pcm + r.encoder.buffer == e.buffer + samples
      && |r.packet.pcm| <= format.PacketSamples()
      && r.packet.timestamp == e.timestamp && r.packet.frames == |r.packet.pcm| / format.channels
      && r.encoder.timestamp == e.timestamp + r.packet.frames
  {}

  class AlacEncoder {
    const format: Format
    var timestamp: nat
    var buffer: Pcm

    constructor (format: Format)
      ensures this.format == format && View() == NEW_ENCODER
    {
      this.format := format;
      timestamp, buffer := 0, [];
    }

    ghost function View(): Encoder
      reads this
    {
      Encoder(buffer, timestamp)
    }

    method CodeFrame(samples: Pcm) returns (packet: EncodedPacket)
      requires format.channels > 0
      modifies this`timestamp
      ensures Encoded(View(), packet) == EncodeFrame(old(View()), format.channels, samples)
    {
      var frames := |samples| / format.channels;
      packet := EncodedPacket(samples, frames, timestamp);
      timestamp := timestamp + frames;
    }

    method EncodePacket(samples: Pcm) returns (packet: EncodedPacket)
      requires format.channels > 0
      modifies this
      ensures Encoded(View(), packet) == Encode(old(View()), format, samples)
    {
      var size := format.PacketSamples();
      buffer := buffer + samples;
      if |buffer| >= size {
        var frame := buffer[..size];
        buffer := buffer[size..];
        packet := CodeFrame(frame);
      } else {
        var partial := buffer;
        buffer := [];
        packet := CodeFrame(partial);
      }
    }
  }
}
